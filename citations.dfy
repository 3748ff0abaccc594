/**
 * `extractCitations`, present as three identical copies (src/api/chat.ts,
 * app/api/chat/route.ts, src/components/Chat.tsx). It collects the global
 * matches of `/\[(.*?)\]/g`, strips the brackets of each, splits the content
 * on `':'` and keeps the trimmed fields 0 and 1. The regular expression is
 * modelled as an explicit left-to-right scanner.
 */
module Citations {
  import opened Results
  import opened Text
  import opened ChatTypes

  /** A `]` at `j` ends a lazy `.*?` begun at `k`: it is the first `]` from
      `k` on and no line terminator comes before it. */
  predicate IsClose(text: string, k: nat, j: nat) {
    && k <= j < |text|
    && text[j] == ']'
    && forall m :: k <= m < j ==> text[m] != ']' && !IsLineTerminator(text[m])
  }

  /** `/\[(.*?)\]/` tried at position `i` matches `text[i..j + 1]`. */
  predicate IsMatchAt(text: string, i: nat, j: nat) {
    i < |text| && text[i] == '[' && IsClose(text, i + 1, j)
  }

  /** The lazy `(.*?)\]` started at `k`: the first `]`, or nothing when a
      line terminator or the end of the text comes first. */
  function CloseAt(text: string, k: nat): (r: Option<nat>)
    requires k <= |text|
    ensures r.Some? ==> IsClose(text, k, r.value)
    ensures r.None? ==> forall j: nat :: !IsClose(text, k, j)
    decreases |text| - k
  {
    if k == |text| then None
    else if text[k] == ']' then Some(k)
    else if IsLineTerminator(text[k]) then None
    else
      var r := CloseAt(text, k + 1);
      assert forall j: nat :: IsClose(text, k, j) ==> IsClose(text, k + 1, j);
      r
  }

  /** A match, as the positions `lo..hi` of the text it spans. */
  datatype Span = Span(lo: nat, hi: nat)

  /** The scan of `text.match(/\[(.*?)\]/g)` from position `i`: a `[` that
      has its close starts a match and the scan resumes after the `]`;
      otherwise the scan moves on by one character. */
  function SpansFrom(text: string, i: nat): (spans: seq<Span>)
    requires i <= |text|
    ensures forall k :: 0 <= k < |spans| ==> i <= spans[k].lo < spans[k].hi <= |text|
    decreases |text| - i
  {
    if i == |text| then []
    else if text[i] == '[' then
      match CloseAt(text, i + 1)
      case Some(j) => [Span(i, j + 1)] + SpansFrom(text, j + 1)
      case None => SpansFrom(text, i + 1)
    else SpansFrom(text, i + 1)
  }

  /** Position `p` lies inside one of the spans. */
  predicate Covered(spans: seq<Span>, p: nat) {
    exists k :: 0 <= k < |spans| && spans[k].lo <= p < spans[k].hi
  }

  /** The span is a whole match of the expression. */
  predicate IsMatchSpan(text: string, sp: Span) {
    0 < sp.hi && IsMatchAt(text, sp.lo, sp.hi - 1)
  }

  /** The spans come in order and do not overlap. */
  predicate Ordered(spans: seq<Span>) {
    forall k, l :: 0 <= k < l < |spans| ==> spans[k].hi <= spans[l].lo
  }

  /** Every span the scan reports is a match. */
  lemma {:induction false} SpansAreMatches(text: string, i: nat)
    requires i <= |text|
    ensures forall k :: 0 <= k < |SpansFrom(text, i)| ==> IsMatchSpan(text, SpansFrom(text, i)[k])
    decreases |text| - i
  {
    if i < |text| {
      var spans := SpansFrom(text, i);
      if text[i] == '[' && CloseAt(text, i + 1).Some? {
        var j := CloseAt(text, i + 1).value;
        var rest := SpansFrom(text, j + 1);
        SpansAreMatches(text, j + 1);
        assert spans == [Span(i, j + 1)] + rest;
        assert IsMatchSpan(text, spans[0]);
        assert forall k :: 0 < k < |spans| ==> spans[k] == rest[k - 1];
      } else {
        assert spans == SpansFrom(text, i + 1);
        SpansAreMatches(text, i + 1);
      }
    }
  }

  /** The scan reports its spans in order of position, without overlap. */
  lemma {:induction false} SpansOrdered(text: string, i: nat)
    requires i <= |text|
    ensures Ordered(SpansFrom(text, i))
    decreases |text| - i
  {
    if i < |text| {
      var spans := SpansFrom(text, i);
      if text[i] == '[' && CloseAt(text, i + 1).Some? {
        var j := CloseAt(text, i + 1).value;
        var rest := SpansFrom(text, j + 1);
        SpansOrdered(text, j + 1);
        assert spans == [Span(i, j + 1)] + rest;
        OrderedCons(Span(i, j + 1), rest);
      } else {
        assert spans == SpansFrom(text, i + 1);
        SpansOrdered(text, i + 1);
      }
    }
  }

  /** A span in front of ordered spans that all start after it keeps them ordered. */
  lemma OrderedCons(sp: Span, rest: seq<Span>)
    requires Ordered(rest)
    requires forall k :: 0 <= k < |rest| ==> sp.hi <= rest[k].lo
    ensures Ordered([sp] + rest)
  {
    var spans := [sp] + rest;
    forall k, l | 0 <= k < l < |spans| ensures spans[k].hi <= spans[l].lo {
      assert spans[l] == rest[l - 1];
      if k > 0 {
        assert spans[k] == rest[k - 1];
      }
    }
  }

  /** The scan misses no match: every position from `i` on where a match
      could begin lies inside a reported span (it may be inside an earlier
      match, which the global search then steps over). */
  lemma {:induction false} SpansCoverMatches(text: string, i: nat, p: nat, q: nat)
    requires i <= p && IsMatchAt(text, p, q)
    ensures i <= |text|
    ensures Covered(SpansFrom(text, i), p)
    decreases |text| - i
  {
    var spans := SpansFrom(text, i);
    if text[i] == '[' && CloseAt(text, i + 1).Some? {
      var j := CloseAt(text, i + 1).value;
      var rest := SpansFrom(text, j + 1);
      assert spans == [Span(i, j + 1)] + rest;
      if p > j {
        SpansCoverMatches(text, j + 1, p, q);
      }
      CoveredCons(Span(i, j + 1), rest, p);
    } else {
      assert spans == SpansFrom(text, i + 1);
      if p == i {
        assert false;
      } else {
        SpansCoverMatches(text, i + 1, p, q);
      }
    }
  }

  /** A position inside a span, or inside one of the spans after it, is covered. */
  lemma CoveredCons(sp: Span, rest: seq<Span>, p: nat)
    ensures (sp.lo <= p < sp.hi || Covered(rest, p)) ==> Covered([sp] + rest, p)
  {
    var spans := [sp] + rest;
    if sp.lo <= p < sp.hi {
      assert spans[0] == sp;
    } else if Covered(rest, p) {
      var k :| 0 <= k < |rest| && rest[k].lo <= p < rest[k].hi;
      assert spans[k + 1] == rest[k];
    }
  }

  /** The array that `text.match(/\[(.*?)\]/g)` returns (empty for `null`). */
  function Matches(text: string): seq<string> {
    SpanTexts(text, SpansFrom(text, 0))
  }

  /** The substrings of the text that the spans cover, in order. */
  function SpanTexts(text: string, spans: seq<Span>): seq<string>
    requires forall k :: 0 <= k < |spans| ==> spans[k].lo <= spans[k].hi <= |text|
  {
    seq(|spans|, k requires 0 <= k < |spans| => text[spans[k].lo..spans[k].hi])
  }

  /** A content between brackets. */
  function Bracketed(content: string): string {
    ['['] + content + [']']
  }

  /** `match.slice(1, -1)`: the match without its first and last character. */
  function Inner(m: string): string {
    if |m| >= 2 then m[1..|m| - 1] else []
  }

  /** What may stand between the brackets of a match: anything but `]`
      and a line terminator. */
  predicate IsMatchContent(content: string) {
    forall c :: c in content ==> c != ']' && !IsLineTerminator(c)
  }

  /** Every match is a `[`, a content holding no `]` and no line terminator
      (though it may hold `[`), and a `]`. */
  lemma MatchShape(text: string)
    ensures forall k :: 0 <= k < |Matches(text)| ==>
      var m := Matches(text)[k];
      && m == Bracketed(Inner(m))
      && IsMatchContent(Inner(m))
  {
    SpansAreMatches(text, 0);
    var spans := SpansFrom(text, 0);
    forall k | 0 <= k < |spans|
      ensures var m := Matches(text)[k];
        m == Bracketed(Inner(m)) && IsMatchContent(Inner(m))
    {
      assert Matches(text)[k] == text[spans[k].lo..spans[k].hi];
      MatchSpanShape(text, spans[k]);
    }
  }

  /** The text of one match span is a bracketed match content. */
  lemma MatchSpanShape(text: string, sp: Span)
    requires IsMatchSpan(text, sp) && sp.hi <= |text|
    ensures var m := text[sp.lo..sp.hi];
      m == Bracketed(Inner(m)) && IsMatchContent(Inner(m))
  {
    var lo, hi := sp.lo, sp.hi;
    var m := text[lo..hi];
    assert |m| == hi - lo >= 2;
    var inner := m[1..|m| - 1];
    assert inner == text[lo + 1..hi - 1];
    assert m == [m[0]] + inner + [m[|m| - 1]];
    forall c | c in inner ensures c != ']' && !IsLineTerminator(c) {
      var q :| 0 <= q < |inner| && inner[q] == c;
      assert c == text[lo + 1 + q];
    }
  }

  /** The text has no match exactly when the result of `match` is empty. */
  lemma MatchesEmptyIff(text: string)
    ensures Matches(text) == [] <==> forall p: nat, j: nat :: !IsMatchAt(text, p, j)
  {
    var spans := SpansFrom(text, 0);
    if spans != [] {
      SpansAreMatches(text, 0);
      assert IsMatchSpan(text, spans[0]);
      assert |Matches(text)| == |spans|;
    } else {
      forall p: nat, j: nat ensures !IsMatchAt(text, p, j) {
        if IsMatchAt(text, p, j) {
          SpansCoverMatches(text, 0, p, j);
          assert false;
        }
      }
    }
  }

  /** The error `reference.trim()` throws when the content has no `':'`
      and `reference` is therefore `undefined`. */
  datatype CitationError = ReferenceUndefined(content: string)

  /** `const [text, reference] = citation.split(':')` followed by the two
      `trim()` calls. */
  function ParseContent(content: string): (r: Result<Citation, CitationError>) {
    var fields := Split(content, ':');
    if |fields| < 2 then Failure(ReferenceUndefined(content))
    else Success(Citation(Trim(fields[0]), Trim(fields[1])))
  }

  /** The callback of `matches.map`. */
  function ParseCitation(m: string): Result<Citation, CitationError> {
    ParseContent(Inner(m))
  }

  /** `matches.map(...)`: the callback in order; the first throw ends it. */
  function MapCitations(ms: seq<string>): Result<seq<Citation>, CitationError> {
    MapOrThrow(ParseCitation, ms)
  }

  /** `extractCitations(text)`. */
  function ExtractCitations(text: string): (r: Result<seq<Citation>, CitationError>) {
    var ms := Matches(text);
    if ms == [] then Success([]) else MapCitations(ms)
  }

  /** The label is the trimmed text before the first `':'`, the reference
      the trimmed text between the first and the second `':'`; whatever
      follows a second `':'` is dropped. */
  lemma ContentFields(a: string, b: string, rest: string)
    requires ':' !in a && ':' !in b
    requires rest == [] || rest[0] == ':'
    ensures ParseContent(a + [':'] + b + rest) == Success(Citation(Trim(a), Trim(b)))
  {
    var content := a + [':'] + b + rest;
    assert Split(content, ':') == [a] + Split(b + rest, ':') by {
      assert content == a + [':'] + (b + rest);
      SplitAfter(a, b + rest);
    }
    SplitFirst(b, rest);
    ParseOfFields(content, a, b);
  }

  /** The callback's result, read off the first two fields. */
  lemma ParseOfFields(content: string, x: string, y: string)
    requires |Split(content, ':')| >= 2
    requires Split(content, ':')[0] == x && Split(content, ':')[1] == y
    ensures ParseContent(content) == Success(Citation(Trim(x), Trim(y)))
  {
  }

  /** A separator-free prefix followed by `':'` is the first field. */
  lemma SplitAfter(a: string, b: string)
    requires ':' !in a
    ensures Split(a + [':'] + b, ':') == [a] + Split(b, ':')
  {
    var s := a + [':'] + b;
    assert s == a + ([':'] + b);
    IndexOfAfter(a, ':', b);
    assert s[..|a|] == a && s[|a| + 1..] == b;
  }

  /** A separator-free prefix that ends the string or is followed by `':'` is the first field. */
  lemma SplitFirst(b: string, rest: string)
    requires ':' !in b
    requires rest == [] || rest[0] == ':'
    ensures Split(b + rest, ':')[0] == b
  {
    if rest == [] {
      assert b + rest == b;
    } else {
      assert b + rest == b + [':'] + rest[1..];
      SplitAfter(b, rest[1..]);
    }
  }

  /** A content without `':'` makes the callback throw. */
  lemma ContentWithoutColon(content: string)
    ensures ParseContent(content).Failure? <==> ':' !in content
  {
  }

  /** `extractCitations` fails exactly when some match's content has no
      `':'` (no partial list is returned); otherwise it returns one citation
      per match, in order of appearance, duplicates kept. */
  lemma ExtractCitationsSpec(text: string)
    ensures var ms := Matches(text);
      && (ExtractCitations(text).Success? <==> forall k :: 0 <= k < |ms| ==> ':' in Inner(ms[k]))
      && (ExtractCitations(text).Success? ==>
            var cs := ExtractCitations(text).value;
            |cs| == |ms| && forall k :: 0 <= k < |ms| ==> ParseContent(Inner(ms[k])) == Success(cs[k]))
  {
    var ms := Matches(text);
    MapSucceeds(ParseCitation, ms);
    forall k | 0 <= k < |ms| ensures ParseCitation(ms[k]).Success? <==> ':' in Inner(ms[k]) {
      ContentWithoutColon(Inner(ms[k]));
    }
    if ExtractCitations(text).Success? && ms != [] {
      MapValues(ParseCitation, ms);
    }
  }

  /** When `extractCitations` fails, it is on the first match whose content
      has no `':'`, and the error names that content. */
  lemma ExtractCitationsError(text: string)
    requires ExtractCitations(text).Failure?
    ensures exists k :: && 0 <= k < |Matches(text)|
                        && ':' !in Inner(Matches(text)[k])
                        && ExtractCitations(text).error == ReferenceUndefined(Inner(Matches(text)[k]))
                        && forall q :: 0 <= q < k ==> ':' in Inner(Matches(text)[q])
  {
    var ms := Matches(text);
    MapFirstError(ParseCitation, ms);
    var k :| && 0 <= k < |ms|
             && ParseCitation(ms[k]) == Failure(MapCitations(ms).error)
             && forall q :: 0 <= q < k ==> ParseCitation(ms[q]).Success?;
    ContentWithoutColon(Inner(ms[k]));
    forall q | 0 <= q < k ensures ':' in Inner(ms[q]) {
      ContentWithoutColon(Inner(ms[q]));
    }
  }

  /** With no match in the text, the result is the empty list. */
  lemma NoMatchNoCitations(text: string)
    requires forall p: nat, j: nat :: !IsMatchAt(text, p, j)
    ensures ExtractCitations(text) == Success([])
  {
    MatchesEmptyIff(text);
  }

  /** A `[` with a close starts a match that ends at that close, and the
      scan resumes after it. */
  lemma SpansAtMatch(text: string, i: nat, j: nat)
    requires i < |text| && text[i] == '[' && IsClose(text, i + 1, j)
    ensures SpansFrom(text, i) == [Span(i, j + 1)] + SpansFrom(text, j + 1)
  {
    var r := CloseAt(text, i + 1);
  }

  /** No `[` at the positions `i..j` of the text. */
  predicate PlainBetween(text: string, i: nat, j: nat) {
    forall m :: i <= m < j && m < |text| ==> text[m] != '['
  }

  /** The scan passes over characters other than `[`. */
  lemma {:induction false} SpansSkip(text: string, i: nat, j: nat)
    requires i <= j <= |text| && PlainBetween(text, i, j)
    ensures SpansFrom(text, i) == SpansFrom(text, j)
    decreases j - i
  {
    if i < j {
      SpansSkip(text, i + 1, j);
    }
  }

  /** A piece of text without `[` is plain. */
  lemma PlainSlice(text: string, i: nat, j: nat, plain: string)
    requires i <= j <= |text| && text[i..j] == plain && '[' !in plain
    ensures PlainBetween(text, i, j)
  {
    forall m | i <= m < j ensures text[m] != '[' {
      assert text[m] == plain[m - i];
    }
  }

  /** A bracketed content at `i..j` is a match, and the scan resumes after it. */
  lemma SpansOverBracket(text: string, i: nat, j: nat, content: string)
    requires j == i + |content| + 2 <= |text| && text[i..j] == Bracketed(content)
    requires IsMatchContent(content)
    ensures SpansFrom(text, i) == [Span(i, j)] + SpansFrom(text, j)
  {
    BracketIsMatch(text, i, j, content);
    SpansAtMatch(text, i, j - 1);
  }

  /** A bracketed content at `i..j` is a match of the expression. */
  lemma BracketIsMatch(text: string, i: nat, j: nat, content: string)
    requires j == i + |content| + 2 <= |text| && text[i..j] == Bracketed(content)
    requires IsMatchContent(content)
    ensures IsMatchAt(text, i, j - 1)
  {
    BracketedAt(content);
    var m := text[i..j];
    assert text[i] == m[0] && text[j - 1] == m[j - 1 - i];
    forall k | i + 1 <= k < j - 1 ensures text[k] != ']' && !IsLineTerminator(text[k]) {
      assert text[k] == m[k - i] == content[k - i - 1];
      assert content[k - i - 1] in content;
    }
  }

  /** The characters of a bracketed content, position by position. */
  lemma BracketedAt(content: string)
    ensures var m := Bracketed(content);
      && |m| == |content| + 2 && m[0] == '[' && m[|content| + 1] == ']'
      && forall q :: 0 <= q < |content| ==> m[q + 1] == content[q]
  {
  }

  /** The scan finds nothing at the end of the text. */
  lemma SpansAtEnd(text: string)
    ensures SpansFrom(text, |text|) == []
  {
  }

  /** A `[` whose line ends before any `]` starts no match: the scan goes on
      with the next character. */
  lemma SpansOverUnclosed(text: string, i: nat, n: nat)
    requires i + n < |text| && text[i] == '['
    requires forall m :: i < m < i + n ==> text[m] != ']'
    requires IsLineTerminator(text[i + n]) && n > 0
    ensures SpansFrom(text, i) == SpansFrom(text, i + 1)
  {
  }

  /** A text with one bracketed part at `p..q` and no other `[` has exactly
      that span. */
  lemma SpansOfSingle(text: string, p: nat, q: nat, content: string)
    requires q == p + |content| + 2 <= |text| && text[p..q] == Bracketed(content)
    requires IsMatchContent(content)
    requires PlainBetween(text, 0, p) && PlainBetween(text, q, |text|)
    ensures SpansFrom(text, 0) == [Span(p, q)]
  {
    SpansSkip(text, 0, p);
    SpansOverBracket(text, p, q, content);
    SpansSkip(text, q, |text|);
    SpansAtEnd(text);
    assert [Span(p, q)] + [] == [Span(p, q)];
  }

  /** A text with bracketed parts at `p1..q1` and `p2..q2` and no other `[`
      has exactly those two spans. */
  lemma SpansOfPair(text: string, p1: nat, q1: nat, c1: string, p2: nat, q2: nat, c2: string)
    requires q1 == p1 + |c1| + 2 <= p2 && q2 == p2 + |c2| + 2 <= |text|
    requires text[p1..q1] == Bracketed(c1) && text[p2..q2] == Bracketed(c2)
    requires IsMatchContent(c1) && IsMatchContent(c2)
    requires PlainBetween(text, 0, p1) && PlainBetween(text, q1, p2) && PlainBetween(text, q2, |text|)
    ensures SpansFrom(text, 0) == [Span(p1, q1), Span(p2, q2)]
  {
    SpansSkip(text, 0, p1);
    SpansOverBracket(text, p1, q1, c1);
    SpansSkip(text, q1, p2);
    SpansOverBracket(text, p2, q2, c2);
    SpansSkip(text, q2, |text|);
    SpansAtEnd(text);
    assert [Span(p1, q1)] + ([Span(p2, q2)] + []) == [Span(p1, q1), Span(p2, q2)];
  }

  /** Each of three concatenated pieces is the slice at its offset. */
  lemma ThreePieces(a: string, b: string, c: string)
    ensures |a + b + c| == |a| + |b| + |c|
    ensures (a + b + c)[0..|a|] == a
    ensures (a + b + c)[|a|..|a| + |b|] == b
    ensures (a + b + c)[|a| + |b|..|a| + |b| + |c|] == c
  {
  }

  /** The substring of one span. */
  lemma SpanTextsOne(text: string, sp: Span)
    requires sp.lo <= sp.hi <= |text|
    ensures SpanTexts(text, [sp]) == [text[sp.lo..sp.hi]]
  {
  }

  /** The substrings of two spans. */
  lemma SpanTextsTwo(text: string, sp1: Span, sp2: Span)
    requires sp1.lo <= sp1.hi <= |text| && sp2.lo <= sp2.hi <= |text|
    ensures SpanTexts(text, [sp1, sp2]) == [text[sp1.lo..sp1.hi], text[sp2.lo..sp2.hi]]
  {
  }

  /** A text with one bracketed part and no other `[` has exactly that
      match. */
  lemma MatchesSingle(pre: string, content: string, post: string)
    requires '[' !in pre && '[' !in post && IsMatchContent(content)
    ensures Matches(pre + Bracketed(content) + post) == [Bracketed(content)]
  {
    var m := Bracketed(content);
    var t := pre + m + post;
    var p, q := |pre|, |pre| + |m|;
    assert |m| == |content| + 2;
    ThreePieces(pre, m, post);
    PlainSlice(t, 0, p, pre);
    PlainSlice(t, q, |t|, post);
    SpansOfSingle(t, p, q, content);
    SpanTextsOne(t, Span(p, q));
  }

  /** A text with two bracketed parts and no other `[` has exactly those
      two matches, in order. */
  lemma MatchesPair(pre: string, c1: string, mid: string, c2: string, post: string)
    requires '[' !in pre && '[' !in mid && '[' !in post
    requires IsMatchContent(c1) && IsMatchContent(c2)
    ensures Matches(pre + Bracketed(c1) + mid + Bracketed(c2) + post) == [Bracketed(c1), Bracketed(c2)]
  {
    var m1, m2 := Bracketed(c1), Bracketed(c2);
    var t := pre + m1 + mid + m2 + post;
    assert |m1| == |c1| + 2 && |m2| == |c2| + 2;
    var p1 := |pre|;
    var q1 := p1 + |m1|;
    var p2 := q1 + |mid|;
    var q2 := p2 + |m2|;
    FivePieces(pre, m1, mid, m2, post);
    PlainSlice(t, 0, p1, pre);
    PlainSlice(t, q1, p2, mid);
    PlainSlice(t, q2, |t|, post);
    SpansOfPair(t, p1, q1, c1, p2, q2, c2);
    SpanTextsTwo(t, Span(p1, q1), Span(p2, q2));
  }

  /** Each of five concatenated pieces is the slice at its offset. */
  lemma FivePieces(a: string, b: string, c: string, d: string, e: string)
    ensures (a + b + c + d + e)[0..|a|] == a
    ensures (a + b + c + d + e)[|a|..|a| + |b|] == b
    ensures (a + b + c + d + e)[|a| + |b|..|a| + |b| + |c|] == c
    ensures (a + b + c + d + e)[|a| + |b| + |c|..|a| + |b| + |c| + |d|] == d
    ensures (a + b + c + d + e)[|a| + |b| + |c| + |d|..|a| + |b| + |c| + |d| + |e|] == e
    ensures |a + b + c + d + e| == |a| + |b| + |c| + |d| + |e|
  {
    var t := a + b + c + d + e;
    assert t == (a + b + c + d) + e;
    assert t[..|a| + |b| + |c| + |d|] == a + b + c + d;
    assert (a + b + c + d)[..|a| + |b| + |c|] == a + b + c;
    assert (a + b + c)[..|a| + |b|] == a + b;
  }

  /** A text with a single match yields that match's citation or error. */
  lemma ExtractOne(text: string, m: string)
    requires Matches(text) == [m]
    ensures ParseCitation(m).Success? ==> ExtractCitations(text) == Success([ParseCitation(m).value])
    ensures ParseCitation(m).Failure? ==> ExtractCitations(text) == Failure(ParseCitation(m).error)
  {
    MapOne(ParseCitation, m);
  }

  /** A text with two matches whose contents parse yields both citations, in order. */
  lemma ExtractTwo(text: string, m1: string, m2: string)
    requires Matches(text) == [m1, m2]
    requires ParseCitation(m1).Success? && ParseCitation(m2).Success?
    ensures ExtractCitations(text) == Success([ParseCitation(m1).value, ParseCitation(m2).value])
  {
    MapTwo(ParseCitation, m1, m2);
  }

  /** A match's content is what lies between its brackets. */
  lemma InnerBracketed(content: string)
    ensures Inner(Bracketed(content)) == content
  {
  }

  /** One bracketed `[a:b...]` in a text: its citation is the trimmed text
      before the first `':'` and the trimmed text up to the next one. */
  lemma ExtractSingle(pre: string, a: string, b: string, rest: string, post: string)
    requires '[' !in pre && '[' !in post
    requires ':' !in a && ':' !in b && (rest == [] || rest[0] == ':')
    requires IsMatchContent(a + [':'] + b + rest)
    ensures ExtractCitations(pre + Bracketed(a + [':'] + b + rest) + post) == Success([Citation(Trim(a), Trim(b))])
  {
    var content := a + [':'] + b + rest;
    MatchesSingle(pre, content, post);
    InnerBracketed(content);
    ContentFields(a, b, rest);
    ExtractOne(pre + Bracketed(content) + post, Bracketed(content));
  }

  /** One bracketed part without `':'` in a text, even an empty one, makes
      the extraction fail. */
  lemma ExtractSingleColonless(pre: string, content: string, post: string)
    requires '[' !in pre && '[' !in post
    requires ':' !in content && IsMatchContent(content)
    ensures ExtractCitations(pre + Bracketed(content) + post) == Failure(ReferenceUndefined(content))
  {
    MatchesSingle(pre, content, post);
    InnerBracketed(content);
    ContentWithoutColon(content);
    ExtractOne(pre + Bracketed(content) + post, Bracketed(content));
  }

  /** Two bracketed citations in a text give both, in order of appearance. */
  lemma ExtractPair(pre: string, a1: string, b1: string, mid: string, a2: string, b2: string, post: string)
    requires '[' !in pre && '[' !in mid && '[' !in post
    requires ':' !in a1 && ':' !in b1 && ':' !in a2 && ':' !in b2
    requires IsMatchContent(a1 + [':'] + b1) && IsMatchContent(a2 + [':'] + b2)
    ensures ExtractCitations(pre + Bracketed(a1 + [':'] + b1) + mid + Bracketed(a2 + [':'] + b2) + post)
         == Success([Citation(Trim(a1), Trim(b1)), Citation(Trim(a2), Trim(b2))])
  {
    var c1, c2 := a1 + [':'] + b1, a2 + [':'] + b2;
    var m1, m2 := Bracketed(c1), Bracketed(c2);
    MatchesPair(pre, c1, mid, c2, post);
    InnerBracketed(c1);
    InnerBracketed(c2);
    assert c1 == a1 + [':'] + b1 + [];
    assert c2 == a2 + [':'] + b2 + [];
    ContentFields(a1, b1, []);
    ContentFields(a2, b2, []);
    ExtractTwo(pre + m1 + mid + m2 + post, m1, m2);
  }

  /** The match starts at the first `[` and ends at the first `]`: a second
      `[` in between stays in the content. */
  lemma ExampleInnerOpenBracket()
    ensures Matches("[a[b:c]") == ["[a[b:c]"]
  {
    var t := "[a[b:c]";
    assert SpansFrom(t, 0) == [Span(0, 7)] by {
      SpansAtMatch(t, 0, 6);
      SpansAtEnd(t);
    }
    SpanTextsOne(t, Span(0, 7));
    assert t[0..7] == t;
  }

  /** A `[` whose line ends before any `]` starts no match; the scan goes on
      and finds the match on the next line. */
  lemma ExampleUnclosedLine()
    ensures Matches("[x\n[A: p]") == ["[A: p]"]
  {
    var t := "[x\n[A: p]";
    UnclosedLineSpans(t);
    SpanTextsOne(t, Span(3, 9));
    assert t[3..9] == "[A: p]";
  }

  /** The scan of that text: the unclosed `[` is passed over. */
  lemma UnclosedLineSpans(t: string)
    requires t == "[x\n[A: p]"
    ensures SpansFrom(t, 0) == [Span(3, 9)]
  {
    SpansOverUnclosed(t, 0, 2);
    SpansSkip(t, 1, 3);
    SpansAtMatch(t, 3, 8);
    SpansAtEnd(t);
  }
}
