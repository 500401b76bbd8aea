/**
 * The case-conversion and blank-check helpers (src/utils/string.ts): `capitalize`, the
 * shared word tokenizer, `snakeCase`, `kebabCase`, `camelCase`, `trim`, `isBlank` and
 * `isNotBlank`. Strings are sequences of characters.
 */
module Strings {
  import opened Std
  import Arrays

  // ---------------------------------------------------------------------------------
  // Character classes and ASCII case mapping
  // ---------------------------------------------------------------------------------

  /** The regular-expression class `[A-Z]`. */
  predicate IsUpper(c: char) { 'A' <= c <= 'Z' }

  /** The regular-expression class `[a-z]`. */
  predicate IsLower(c: char) { 'a' <= c <= 'z' }

  /** The regular-expression class `\d` (without the `u` flag: ASCII digits only). */
  predicate IsDigit(c: char) { '0' <= c <= '9' }

  predicate IsLetter(c: char) { IsUpper(c) || IsLower(c) }

  /** A character that some alternative of the word pattern can match. */
  predicate IsWordChar(c: char) { IsLetter(c) || IsDigit(c) }

  /** `toUpperCase` of one character, on the ASCII range. */
  function ToUpper(c: char): (r: char)
    ensures IsLower(c) ==> IsUpper(r) && r as int == c as int - 32
    ensures !IsLower(c) ==> r == c
  {
    if IsLower(c) then (c as int - 32) as char else c
  }

  /** `toLowerCase` of one character, on the ASCII range. */
  function ToLower(c: char): (r: char)
    ensures IsUpper(c) ==> IsLower(r) && r as int == c as int + 32
    ensures !IsUpper(c) ==> r == c
  {
    if IsUpper(c) then (c as int + 32) as char else c
  }

  /** `String.prototype.toLowerCase`, on the ASCII range. */
  function LowerCase(s: string): (r: string)
    ensures |r| == |s|
    ensures forall i :: 0 <= i < |s| ==> r[i] == ToLower(s[i])
  {
    seq(|s|, i requires 0 <= i < |s| => ToLower(s[i]))
  }

  /** Lowercasing distributes over concatenation. */
  lemma LowerCaseConcat(a: string, b: string)
    ensures LowerCase(a + b) == LowerCase(a) + LowerCase(b)
  {
  }

  /** `capitalize(str)`: the first character uppercased, the rest unchanged; "" stays "". */
  function Capitalize(str: string): (r: string)
    ensures |r| == |str|
    ensures str != [] ==> r[0] == ToUpper(str[0]) && r[1..] == str[1..]
  {
    if str == [] then [] else [ToUpper(str[0])] + str[1..]
  }

  // ---------------------------------------------------------------------------------
  // Whitespace and String.prototype.trim
  // ---------------------------------------------------------------------------------

  /**
   * The characters `String.prototype.trim` removes: the ECMAScript WhiteSpace code points
   * (tab, vertical tab, form feed, space, no-break space, the zero-width no-break space
   * U+FEFF and the other space separators of category Zs: U+1680, U+2000 to U+200A,
   * U+202F, U+205F, U+3000) and the LineTerminator code points (line feed, carriage
   * return, U+2028, U+2029). Tab to carriage return are U+0009 to U+000D.
   */
  predicate IsWhitespace(c: char)
  {
    || '\t' <= c <= '\r' || c == ' ' || c == '\U{00A0}' || c == '\U{1680}'
    || '\U{2000}' <= c <= '\U{200A}' || c == '\U{2028}' || c == '\U{2029}'
    || c == '\U{202F}' || c == '\U{205F}' || c == '\U{3000}' || c == '\U{FEFF}'
  }

  /** No whitespace character is a word character. */
  lemma WhitespaceNotWordChar(c: char)
    requires IsWhitespace(c)
    ensures !IsWordChar(c)
  {
  }

  /** No word character in `s[lo..hi]`. */
  predicate NoWordChars(s: string, lo: nat, hi: nat)
    requires lo <= hi <= |s|
  {
    forall k :: lo <= k < hi ==> !IsWordChar(s[k])
  }

  /** A run of whitespace holds no word character. */
  lemma WhitespaceRun(s: string, lo: nat, hi: nat)
    requires lo <= hi <= |s|
    requires forall k :: lo <= k < hi ==> IsWhitespace(s[k])
    ensures NoWordChars(s, lo, hi)
  {
    forall k | lo <= k < hi ensures !IsWordChar(s[k]) {
      WhitespaceNotWordChar(s[k]);
    }
  }

  /** The end of the run of whitespace that starts at `p`. */
  function LeadingEnd(s: string, p: nat): (i: nat)
    requires p <= |s|
    ensures p <= i <= |s|
    ensures forall k :: p <= k < i ==> IsWhitespace(s[k])
    ensures i == |s| || !IsWhitespace(s[i])
    decreases |s| - p
  {
    if p < |s| && IsWhitespace(s[p]) then LeadingEnd(s, p + 1) else p
  }

  /** The start of the run of whitespace that ends at `q`, looking no further left than `lo`. */
  function TrailingStart(s: string, lo: nat, q: nat): (j: nat)
    requires lo <= q <= |s|
    ensures lo <= j <= q
    ensures forall k :: j <= k < q ==> IsWhitespace(s[k])
    ensures j == lo || !IsWhitespace(s[j - 1])
    decreases q
  {
    if q > lo && IsWhitespace(s[q - 1]) then TrailingStart(s, lo, q - 1) else q
  }

  /**
   * `String.prototype.trim`: the middle of `s` after its leading whitespace and before its
   * trailing whitespace, neither starting nor ending with whitespace.
   */
  function TrimWhitespace(s: string): (r: string)
    ensures var i := LeadingEnd(s, 0);
            && i + |r| <= |s| && r == s[i..i + |r|]
            && (forall k :: 0 <= k < i ==> IsWhitespace(s[k]))
            && (forall k :: i + |r| <= k < |s| ==> IsWhitespace(s[k]))
    ensures r == [] || (!IsWhitespace(r[0]) && !IsWhitespace(r[|r| - 1]))
  {
    var i := LeadingEnd(s, 0);
    s[i..TrailingStart(s, i, |s|)]
  }

  /** Trimming twice trims no more than trimming once. */
  lemma TrimWhitespaceIdempotent(s: string)
    ensures TrimWhitespace(TrimWhitespace(s)) == TrimWhitespace(s)
  {
    var r := TrimWhitespace(s);
    NothingToTrim(r);
  }

  /** A string that neither starts nor ends with whitespace is its own trim. */
  lemma NothingToTrim(s: string)
    requires s == [] || (!IsWhitespace(s[0]) && !IsWhitespace(s[|s| - 1]))
    ensures TrimWhitespace(s) == s
  {
  }

  /** A string trims to "" exactly when it is all whitespace. */
  lemma TrimWhitespaceEmpty(s: string)
    ensures TrimWhitespace(s) == [] <==> forall i :: 0 <= i < |s| ==> IsWhitespace(s[i])
  {
  }

  /** A prefix without word characters does not change the word characters. */
  lemma DropFront(a: string, b: string)
    requires forall k :: 0 <= k < |a| ==> !IsWordChar(a[k])
    ensures Arrays.Filter(a + b, IsWordChar) == Arrays.Filter(b, IsWordChar)
  {
    Arrays.FilterConcat(a, b, IsWordChar);
    Arrays.FilterNone(a, IsWordChar);
  }

  /** A suffix without word characters does not change the word characters. */
  lemma DropBack(a: string, b: string)
    requires forall k :: 0 <= k < |b| ==> !IsWordChar(b[k])
    ensures Arrays.Filter(a + b, IsWordChar) == Arrays.Filter(a, IsWordChar)
  {
    Arrays.FilterConcat(a, b, IsWordChar);
    Arrays.FilterNone(b, IsWordChar);
  }

  /** Cutting off non-word characters at both ends leaves the word characters alone. */
  lemma FilterDropsNonWord(s: string, i: nat, r: string)
    requires i + |r| <= |s| && r == s[i..i + |r|]
    requires NoWordChars(s, 0, i) && NoWordChars(s, i + |r|, |s|)
    ensures Arrays.Filter(r, IsWordChar) == Arrays.Filter(s, IsWordChar)
  {
    var pre, post := s[..i], s[i + |r|..];
    assert s == pre + (r + post);
    DropFront(pre, r + post);
    DropBack(r, post);
  }

  /** Trimming cuts off no word character at either end. */
  lemma TrimMargins(s: string)
    ensures var i, r := LeadingEnd(s, 0), TrimWhitespace(s);
            i + |r| <= |s| && r == s[i..i + |r|] && NoWordChars(s, 0, i) && NoWordChars(s, i + |r|, |s|)
  {
    var i, r := LeadingEnd(s, 0), TrimWhitespace(s);
    WhitespaceRun(s, 0, i);
    WhitespaceRun(s, i + |r|, |s|);
  }

  /** Trimming removes no word character. */
  lemma TrimKeepsWordChars(s: string)
    ensures Arrays.Filter(TrimWhitespace(s), IsWordChar) == Arrays.Filter(s, IsWordChar)
  {
    TrimMargins(s);
    FilterDropsNonWord(s, LeadingEnd(s, 0), TrimWhitespace(s));
  }

  // ---------------------------------------------------------------------------------
  // The word tokenizer: /[A-Z]+(?![a-z])|[A-Z]?[a-z]+|\d+/g
  // ---------------------------------------------------------------------------------

  /** A matched word: the characters `s[start..end]`. */
  datatype Span = Span(start: nat, end: nat)

  /** The three character classes the word pattern is built from. */
  datatype CharClass = Upper | Lower | Digit

  predicate InClass(c: char, cls: CharClass)
  {
    match cls
    case Upper => IsUpper(c)
    case Lower => IsLower(c)
    case Digit => IsDigit(c)
  }

  /** Length of the run of characters of class `cls` that starts at `p`. */
  function Run(s: string, p: nat, cls: CharClass): (n: nat)
    requires p <= |s|
    ensures p + n <= |s|
    ensures forall i :: p <= i < p + n ==> InClass(s[i], cls)
    ensures p + n == |s| || !InClass(s[p + n], cls)
    decreases |s| - p
  {
    if p < |s| && InClass(s[p], cls) then 1 + Run(s, p + 1, cls) else 0
  }

  /**
   * The left context the scanner can be in at position `p`: a word of the class of
   * `s[p - 1]` has already ended there. After digits no digit follows; after a lowercase
   * letter no lowercase letter follows; after a capital comes no lowercase letter, and a
   * capital only as the start of a capital-and-lowercase word.
   */
  predicate Boundary(s: string, p: nat)
    requires p <= |s|
  {
    p == 0 || p == |s| ||
    ((IsDigit(s[p - 1]) ==> !IsDigit(s[p]))
     && (IsLower(s[p - 1]) ==> !IsLower(s[p]))
     && (IsUpper(s[p - 1]) ==> !IsLower(s[p]) && (IsUpper(s[p]) ==> p + 1 < |s| && IsLower(s[p + 1]))))
  }

  /**
   * First alternative, `[A-Z]+(?![a-z])`: capitals, not preceded by a capital and not
   * followed by a lowercase letter; when a capital follows, it starts a capitalised word
   * (the greedy run gave back its last capital).
   */
  predicate AcronymAt(s: string, b: nat, e: nat)
    requires b < e <= |s|
  {
    && (forall i :: b <= i < e ==> IsUpper(s[i]))
    && (b == 0 || !IsUpper(s[b - 1]))
    && (e == |s| || !IsLower(s[e]))
    && (e < |s| && IsUpper(s[e]) ==> e + 1 < |s| && IsLower(s[e + 1]))
  }

  /**
   * Second alternative, `[A-Z]?[a-z]+`: an optional capital followed by a maximal run of
   * lowercase letters; without the capital, no letter precedes the run.
   */
  predicate CapitalizedAt(s: string, b: nat, e: nat)
    requires b < e <= |s|
  {
    && (forall i :: b < i < e ==> IsLower(s[i]))
    && ((IsUpper(s[b]) && b + 1 < e) || (IsLower(s[b]) && (b == 0 || !IsLetter(s[b - 1]))))
    && (e == |s| || !IsLower(s[e]))
  }

  /** Third alternative, `\d+`: a maximal run of digits. */
  predicate DigitsAt(s: string, b: nat, e: nat)
    requires b < e <= |s|
  {
    && (forall i :: b <= i < e ==> IsDigit(s[i]))
    && (b == 0 || !IsDigit(s[b - 1]))
    && (e == |s| || !IsDigit(s[e]))
  }

  /** A non-empty span of `s` that one of the three alternatives matches. */
  predicate IsWordSpan(s: string, sp: Span)
  {
    sp.start < sp.end <= |s| &&
    (AcronymAt(s, sp.start, sp.end) || CapitalizedAt(s, sp.start, sp.end) || DigitsAt(s, sp.start, sp.end))
  }

  /**
   * Length of the match of the pattern at `p`, 0 when no alternative matches there.
   * The alternatives are tried in order, each with the backtracking of its quantifiers.
   */
  function MatchLength(s: string, p: nat): (n: nat)
    requires p < |s|
    ensures p + n <= |s|
    ensures n == 0 <==> !IsWordChar(s[p])
  {
    var caps := Run(s, p, Upper);
    if caps > 0 && (p + caps == |s| || !IsLower(s[p + caps])) then
      // [A-Z]+ takes the whole run of capitals; no lowercase letter follows it.
      caps
    else if caps > 1 then
      // [A-Z]+ gives back the last capital, which is followed by a lowercase letter.
      caps - 1
    else if caps == 1 then
      // A single capital followed by lowercase letters: [A-Z]?[a-z]+ with the capital.
      1 + Run(s, p + 1, Lower)
    else if IsLower(s[p]) then
      // [A-Z]?[a-z]+ without the capital.
      Run(s, p, Lower)
    else
      // \d+, or no match when s[p] is not a digit either.
      Run(s, p, Digit)
  }

  /**
   * A match consists of word characters and ends at a boundary; in a boundary context it
   * is a span that one of the alternatives matches.
   */
  lemma MatchIsWordSpan(s: string, p: nat)
    requires p < |s|
    ensures forall i :: p <= i < p + MatchLength(s, p) ==> IsWordChar(s[i])
    ensures MatchLength(s, p) > 0 ==> Boundary(s, p + MatchLength(s, p))
    ensures MatchLength(s, p) > 0 && Boundary(s, p) ==> IsWordSpan(s, Span(p, p + MatchLength(s, p)))
  {
  }

  /** Every match that a table of match lengths records ends inside the string. */
  predicate InBounds(m: seq<nat>)
  {
    forall q :: 0 <= q < |m| ==> q + m[q] <= |m|
  }

  /** The length of the match the pattern finds at each position of `s`. */
  function Matches(s: string): (m: seq<nat>)
    ensures |m| == |s| && InBounds(m)
  {
    seq(|s|, q requires 0 <= q < |s| => MatchLength(s, q))
  }

  /**
   * A match of length `n` at `q` is empty exactly when `s[q]` is no word character, and
   * consists of word characters.
   */
  predicate WordRunAt(s: string, q: nat, n: nat)
    requires q < |s| && q + n <= |s|
  {
    (n == 0 <==> !IsWordChar(s[q])) && forall i :: q <= i < q + n ==> IsWordChar(s[i])
  }

  /**
   * A non-empty match of length `n` at `q` ends at a boundary, and from a boundary it is a
   * span one of the alternatives matches.
   */
  predicate WordSpanAt(s: string, q: nat, n: nat)
    requires q < |s| && q + n <= |s|
  {
    n > 0 ==> Boundary(s, q + n) && (Boundary(s, q) ==> IsWordSpan(s, Span(q, q + n)))
  }

  /** The match the pattern finds at `p` has both kinds of facts. */
  lemma MatchLengthFacts(s: string, p: nat)
    requires p < |s|
    ensures WordRunAt(s, p, MatchLength(s, p)) && WordSpanAt(s, p, MatchLength(s, p))
  {
    MatchIsWordSpan(s, p);
  }

  /** Every entry of a table of match lengths for `s` is a run of word characters. */
  predicate WordRuns(s: string, m: seq<nat>)
  {
    |m| == |s| && InBounds(m) && forall q :: 0 <= q < |s| ==> WordRunAt(s, q, m[q])
  }

  /** Every entry of a table of match lengths for `s` is a word span from a boundary. */
  predicate WordSpans(s: string, m: seq<nat>)
  {
    |m| == |s| && InBounds(m) && forall q :: 0 <= q < |s| ==> WordSpanAt(s, q, m[q])
  }

  /** The table the pattern gives for `s` has both kinds of facts. */
  lemma MatchesFacts(s: string)
    ensures WordRuns(s, Matches(s)) && WordSpans(s, Matches(s))
  {
    var m := Matches(s);
    forall q | 0 <= q < |s| ensures WordRunAt(s, q, m[q]) && WordSpanAt(s, q, m[q]) {
      MatchLengthFacts(s, q);
    }
  }

  /**
   * The global match from position `p` on, given the match length at each position: a
   * match is taken where one starts, and the scan resumes after it; a position where no
   * match starts is skipped.
   */
  function Scan(m: seq<nat>, p: nat): (spans: seq<Span>)
    requires p <= |m| && InBounds(m)
    ensures forall i :: 0 <= i < |spans| ==> p <= spans[i].start < spans[i].end <= |m|
    decreases |m| - p
  {
    if p == |m| then []
    else
      var n := m[p];
      if n == 0 then Scan(m, p + 1)
      else [Span(p, p + n)] + Scan(m, p + n)
  }

  /** One step of the scan: skip a position where no match starts, or take the match whole. */
  lemma ScanStep(m: seq<nat>, p: nat)
    requires p < |m| && InBounds(m)
    ensures m[p] == 0 ==> Scan(m, p) == Scan(m, p + 1)
    ensures m[p] > 0 ==> Scan(m, p) == [Span(p, p + m[p])] + Scan(m, p + m[p])
  {
  }

  /** Every span of the list is a match of one alternative. */
  predicate AllWordSpans(s: string, spans: seq<Span>)
  {
    forall i :: 0 <= i < |spans| ==> IsWordSpan(s, spans[i])
  }

  /** A list of word spans with one more in front. */
  lemma WordSpansCons(s: string, sp: Span, rest: seq<Span>, spans: seq<Span>)
    requires IsWordSpan(s, sp) && AllWordSpans(s, rest)
    requires spans == [sp] + rest
    ensures AllWordSpans(s, spans)
  {
    forall i | 0 < i < |spans| ensures IsWordSpan(s, spans[i]) {
      assert spans[i] == rest[i - 1];
    }
  }

  /** A position where no match starts is followed by a boundary. */
  lemma SkipBoundary(s: string, m: seq<nat>, p: nat)
    requires WordRuns(s, m)
    requires p < |s| && m[p] == 0
    ensures Boundary(s, p + 1)
  {
    assert WordRunAt(s, p, m[p]);
  }

  /** A match taken from a boundary is a word span and ends at a boundary. */
  lemma TakeBoundary(s: string, m: seq<nat>, p: nat)
    requires WordSpans(s, m)
    requires p < |s| && m[p] > 0 && Boundary(s, p)
    ensures p + m[p] <= |s| && Boundary(s, p + m[p]) && IsWordSpan(s, Span(p, p + m[p]))
  {
    assert WordSpanAt(s, p, m[p]);
  }

  /** From a boundary, every span the scan takes is a match of one alternative. */
  lemma {:induction false} ScanWordSpans(s: string, m: seq<nat>, p: nat)
    requires WordRuns(s, m) && WordSpans(s, m)
    requires p <= |s| && Boundary(s, p)
    ensures AllWordSpans(s, Scan(m, p))
    decreases |s| - p
  {
    if p == |s| {
      assert Scan(m, p) == [];
    } else if m[p] == 0 {
      SkipBoundary(s, m, p);
      ScanWordSpans(s, m, p + 1);
      ScanStep(m, p);
    } else {
      TakeBoundary(s, m, p);
      ScanWordSpans(s, m, p + m[p]);
      ScanStep(m, p);
      WordSpansCons(s, Span(p, p + m[p]), Scan(m, p + m[p]), Scan(m, p));
    }
  }

  /** The spans are in order and do not overlap. */
  predicate InOrder(spans: seq<Span>)
  {
    forall i, j :: 0 <= i < j < |spans| ==> spans[i].end <= spans[j].start
  }

  /** An ordered list with one more span in front that ends before all of them. */
  lemma InOrderCons(sp: Span, rest: seq<Span>, spans: seq<Span>)
    requires InOrder(rest)
    requires forall i :: 0 <= i < |rest| ==> sp.end <= rest[i].start
    requires spans == [sp] + rest
    ensures InOrder(spans)
  {
    forall i, j | 0 <= i < j < |spans| ensures spans[i].end <= spans[j].start {
      assert spans[j] == rest[j - 1];
      if i > 0 {
        assert spans[i] == rest[i - 1];
      }
    }
  }

  /** The spans of the scan are in order and do not overlap. */
  lemma {:induction false} ScanOrdered(m: seq<nat>, p: nat)
    requires p <= |m| && InBounds(m)
    ensures InOrder(Scan(m, p))
    decreases |m| - p
  {
    if p == |m| {
      assert Scan(m, p) == [];
    } else if m[p] == 0 {
      ScanOrdered(m, p + 1);
      ScanStep(m, p);
    } else {
      ScanOrdered(m, p + m[p]);
      ScanStep(m, p);
      InOrderCons(Span(p, p + m[p]), Scan(m, p + m[p]), Scan(m, p));
    }
  }

  /** The words the spans select, in order. */
  function Slices(s: string, spans: seq<Span>): (words: seq<string>)
    requires forall i :: 0 <= i < |spans| ==> spans[i].start <= spans[i].end <= |s|
    ensures |words| == |spans|
    ensures forall i :: 0 <= i < |spans| ==> words[i] == s[spans[i].start..spans[i].end]
  {
    seq(|spans|, i requires 0 <= i < |spans| => s[spans[i].start..spans[i].end])
  }

  /** The words of a span list with one more span in front. */
  lemma SlicesCons(s: string, sp: Span, rest: seq<Span>)
    requires sp.start <= sp.end <= |s|
    requires forall i :: 0 <= i < |rest| ==> rest[i].start <= rest[i].end <= |s|
    ensures Slices(s, [sp] + rest) == [s[sp.start..sp.end]] + Slices(s, rest)
  {
    var spans := [sp] + rest;
    var lhs, rhs := Slices(s, spans), [s[sp.start..sp.end]] + Slices(s, rest);
    forall i | 0 <= i < |lhs| ensures lhs[i] == rhs[i] {
      if i > 0 {
        assert spans[i] == rest[i - 1];
      }
    }
  }

  /** The characters the spans select, concatenated in order. */
  function Joined(s: string, spans: seq<Span>): string
    requires forall i :: 0 <= i < |spans| ==> spans[i].start <= spans[i].end <= |s|
    decreases |spans|
  {
    if spans == [] then [] else s[spans[0].start..spans[0].end] + Joined(s, spans[1..])
  }

  /** Joining a span list with one more span in front. */
  lemma JoinedCons(s: string, sp: Span, rest: seq<Span>, spans: seq<Span>)
    requires sp.start <= sp.end <= |s|
    requires forall i :: 0 <= i < |rest| ==> rest[i].start <= rest[i].end <= |s|
    requires spans == [sp] + rest
    ensures Joined(s, spans) == s[sp.start..sp.end] + Joined(s, rest)
  {
    assert spans[1..] == rest;
  }

  /** Concatenating the selected words gives the selected characters. */
  lemma {:induction false} FlattenSlices(s: string, spans: seq<Span>)
    requires forall i :: 0 <= i < |spans| ==> spans[i].start <= spans[i].end <= |s|
    ensures Arrays.Flatten(Slices(s, spans)) == Joined(s, spans)
    decreases |spans|
  {
    if spans == [] {
      assert Slices(s, spans) == [];
    } else {
      var rest := spans[1..];
      assert spans == [spans[0]] + rest;
      FlattenSlices(s, rest);
      SlicesCons(s, spans[0], rest);
      Arrays.FlattenCons(s[spans[0].start..spans[0].end], Slices(s, rest));
    }
  }

  /** The word characters of `s` from `p` on, in order. */
  function WordCharsFrom(s: string, p: nat): string
    requires p <= |s|
    decreases |s| - p
  {
    if p == |s| then [] else (if IsWordChar(s[p]) then [s[p]] else []) + WordCharsFrom(s, p + 1)
  }

  /** A run of word characters is collected whole. */
  lemma {:induction false} WordCharsFromRun(s: string, p: nat, n: nat)
    requires p + n <= |s|
    requires forall i :: p <= i < p + n ==> IsWordChar(s[i])
    ensures WordCharsFrom(s, p) == s[p..p + n] + WordCharsFrom(s, p + n)
    decreases n
  {
    if n > 0 {
      WordCharsFromRun(s, p + 1, n - 1);
      assert WordCharsFrom(s, p) == [s[p]] + WordCharsFrom(s, p + 1);
      AppendAssoc([s[p]], s[p + 1..p + n], WordCharsFrom(s, p + n));
      SliceCons(s, p, p + n);
    }
  }

  /** Collecting the word characters from the front is filtering them. */
  lemma {:induction false} WordCharsFromFilter(s: string, p: nat)
    requires p <= |s|
    ensures WordCharsFrom(s, p) == Arrays.Filter(s[p..], IsWordChar)
    decreases |s| - p
  {
    if p == |s| {
      assert s[p..] == [];
    } else {
      WordCharsFromFilter(s, p + 1);
      var head := if IsWordChar(s[p]) then [s[p]] else [];
      assert WordCharsFrom(s, p) == head + WordCharsFrom(s, p + 1);
      SliceCons(s, p, |s|);
      assert s[p..] == [s[p]] + s[p + 1..];
      Arrays.FilterConcat([s[p]], s[p + 1..], IsWordChar);
      FilterSingleton(s[p]);
    }
  }

  /** Filtering one character keeps it exactly when it is a word character. */
  lemma FilterSingleton(c: char)
    ensures Arrays.Filter([c], IsWordChar) == if IsWordChar(c) then [c] else []
  {
    assert [c][..0] == [];
  }

  /** The words the scan takes from `p` on are exactly the word characters from `p` on. */
  predicate CoversFrom(s: string, m: seq<nat>, p: nat)
    requires |m| == |s| && InBounds(m) && p <= |s|
  {
    Joined(s, Scan(m, p)) == WordCharsFrom(s, p)
  }

  /** The scan covers the word characters from every position on. */
  lemma {:induction false} ScanCoversWordChars(s: string, m: seq<nat>, p: nat)
    requires WordRuns(s, m)
    requires p <= |s|
    ensures CoversFrom(s, m, p)
    decreases |s| - p
  {
    if p == |s| {
      CoversEnd(s, m);
    } else {
      assert WordRunAt(s, p, m[p]);
      if m[p] == 0 {
        ScanCoversWordChars(s, m, p + 1);
        CoversSkip(s, m, p);
      } else {
        ScanCoversWordChars(s, m, p + m[p]);
        CoversTake(s, m, p);
      }
    }
  }

  /** Nothing is left to scan at the end. */
  lemma CoversEnd(s: string, m: seq<nat>)
    requires |m| == |s| && InBounds(m)
    ensures CoversFrom(s, m, |s|)
  {
    assert Scan(m, |s|) == [];
    assert WordCharsFrom(s, |s|) == [];
  }

  /** A skipped position holds no word character. */
  lemma CoversSkip(s: string, m: seq<nat>, p: nat)
    requires |m| == |s| && InBounds(m)
    requires p < |s| && m[p] == 0 && !IsWordChar(s[p])
    requires CoversFrom(s, m, p + 1)
    ensures CoversFrom(s, m, p)
  {
    ScanStep(m, p);
    assert WordCharsFrom(s, p) == WordCharsFrom(s, p + 1);
  }

  /** A taken match is a run of word characters. */
  lemma CoversTake(s: string, m: seq<nat>, p: nat)
    requires |m| == |s| && InBounds(m)
    requires p < |s| && m[p] > 0 && p + m[p] <= |s|
    requires forall i :: p <= i < p + m[p] ==> IsWordChar(s[i])
    requires CoversFrom(s, m, p + m[p])
    ensures CoversFrom(s, m, p)
  {
    var n := m[p];
    var spans, rest := Scan(m, p), Scan(m, p + n);
    ScanStep(m, p);
    JoinedCons(s, Span(p, p + n), rest, spans);
    WordCharsFromRun(s, p, n);
    Chain(Joined(s, spans), Joined(s, rest), WordCharsFrom(s, p + n), WordCharsFrom(s, p), s[p..p + n]);
  }

  /** The shape of a word on its own: capitals, an optional capital then lowercase letters, or digits. */
  predicate IsWordShape(w: string)
  {
    && w != []
    && ((forall i :: 0 <= i < |w| ==> IsUpper(w[i]))
        || (IsLetter(w[0]) && (forall i :: 1 <= i < |w| ==> IsLower(w[i])) && (IsUpper(w[0]) ==> |w| >= 2))
        || (forall i :: 0 <= i < |w| ==> IsDigit(w[i])))
  }

  /** The characters of a word span have the shape of a word. */
  lemma SpanShape(s: string, sp: Span)
    requires IsWordSpan(s, sp)
    ensures IsWordShape(s[sp.start..sp.end])
  {
    var w := s[sp.start..sp.end];
    assert forall i :: 0 <= i < |w| ==> w[i] == s[sp.start + i];
  }

  /** Every word a list of word spans selects has the shape of a word. */
  lemma SlicesShapes(s: string, spans: seq<Span>)
    requires forall i :: 0 <= i < |spans| ==> spans[i].start <= spans[i].end <= |s|
    requires AllWordSpans(s, spans)
    ensures forall i :: 0 <= i < |spans| ==> IsWordShape(Slices(s, spans)[i])
  {
    forall i | 0 <= i < |spans| ensures IsWordShape(Slices(s, spans)[i]) {
      SpanShape(s, spans[i]);
    }
  }

  /**
   * `splitWords(value)`: nothing for a blank value, otherwise the matches of the word
   * pattern in the trimmed value, in order.
   */
  function SplitWords(value: string): seq<string>
  {
    var trimmed := TrimWhitespace(value);
    if trimmed == [] then [] else Slices(trimmed, Scan(Matches(trimmed), 0))
  }

  /**
   * The words of `splitWords` are the text of the spans the scan of the trimmed value
   * takes: each span is a match of one of the three alternatives, and the spans follow
   * one another without overlapping.
   */
  lemma SplitWordsSpans(value: string)
    ensures var trimmed := TrimWhitespace(value);
            var spans := Scan(Matches(trimmed), 0);
            && AllWordSpans(trimmed, spans)
            && InOrder(spans)
            && |SplitWords(value)| == |spans|
            && forall i :: 0 <= i < |spans| ==> SplitWords(value)[i] == trimmed[spans[i].start..spans[i].end]
  {
    var trimmed := TrimWhitespace(value);
    MatchesFacts(trimmed);
    ScanWordSpans(trimmed, Matches(trimmed), 0);
    ScanOrdered(Matches(trimmed), 0);
  }

  /** Every word `splitWords` returns has the shape of a word. */
  lemma SplitWordsShapes(value: string)
    ensures forall i :: 0 <= i < |SplitWords(value)| ==> IsWordShape(SplitWords(value)[i])
  {
    var trimmed := TrimWhitespace(value);
    if trimmed != [] {
      MatchesFacts(trimmed);
      ScanWordSpans(trimmed, Matches(trimmed), 0);
      SlicesShapes(trimmed, Scan(Matches(trimmed), 0));
    }
  }

  /** The words of `splitWords`, concatenated, are exactly the value's word characters. */
  lemma SplitWordsCoverage(value: string)
    ensures Arrays.Flatten(SplitWords(value)) == Arrays.Filter(value, IsWordChar)
  {
    var trimmed := TrimWhitespace(value);
    TrimKeepsWordChars(value);
    if trimmed != [] {
      MatchesFacts(trimmed);
      ScanCoversWordChars(trimmed, Matches(trimmed), 0);
      assert CoversFrom(trimmed, Matches(trimmed), 0);
      WordCharsFromFilter(trimmed, 0);
      FlattenSlices(trimmed, Scan(Matches(trimmed), 0));
      assert trimmed[0..] == trimmed;
    }
  }

  /** The words of `splitWords`, concatenated, are a subsequence of the value. */
  lemma SplitWordsSubsequence(value: string)
    ensures Arrays.IsSubsequence(Arrays.Flatten(SplitWords(value)), value)
  {
    SplitWordsCoverage(value);
    Arrays.FilterIsSubsequence(value, IsWordChar);
  }

  /** Every word `splitWords` returns is non-empty. */
  lemma SplitWordsNonEmpty(value: string)
    ensures forall i :: 0 <= i < |SplitWords(value)| ==> SplitWords(value)[i] != []
  {
    SplitWordsShapes(value);
  }

  /** `splitWords` finds no word exactly when the value has no word character. */
  lemma SplitWordsEmpty(value: string)
    ensures SplitWords(value) == [] <==> forall i :: 0 <= i < |value| ==> !IsWordChar(value[i])
  {
    var words := SplitWords(value);
    SplitWordsCoverage(value);
    if words != [] {
      SplitWordsNonEmpty(value);
      FlattenNonEmpty(words);
      var f := Arrays.Filter(value, IsWordChar);
      assert f[0] in f;
    } else {
      forall i | 0 <= i < |value| ensures !IsWordChar(value[i]) {
        assert value[i] in value;
      }
    }
  }

  /** Flattening words that are all non-empty gives "" only for no words. */
  lemma {:induction false} FlattenNonEmpty(words: seq<string>)
    requires forall i :: 0 <= i < |words| ==> words[i] != []
    ensures Arrays.Flatten(words) == [] <==> words == []
  {
    if words != [] {
      assert |Arrays.Flatten(words)| >= |words[|words| - 1]|;
    }
  }

  // ---------------------------------------------------------------------------------
  // Array.prototype.join and the case converters
  // ---------------------------------------------------------------------------------

  /** `words.join(separator)`: the words with the separator between neighbours. */
  function Join(words: seq<string>, separator: string): string
    decreases |words|
  {
    if words == [] then []
    else if |words| == 1 then words[0]
    else Join(words[..|words| - 1], separator) + separator + words[|words| - 1]
  }

  /** Joining with the empty separator concatenates the words. */
  lemma {:induction false} JoinEmptySeparator(words: seq<string>)
    ensures Join(words, []) == Arrays.Flatten(words)
    decreases |words|
  {
    if |words| == 1 {
      assert words[..0] == [];
    } else if |words| > 1 {
      JoinEmptySeparator(words[..|words| - 1]);
    }
  }

  /** The joined text is "" exactly when there are no words, for non-empty words. */
  lemma JoinEmpty(words: seq<string>, separator: string)
    requires forall i :: 0 <= i < |words| ==> words[i] != []
    ensures Join(words, separator) == [] <==> words == []
  {
    if |words| > 1 {
      assert |Join(words, separator)| >= |words[|words| - 1]|;
    }
  }

  /** Every character of a joined text belongs to the class of the words' and the separator's characters. */
  lemma {:induction false} JoinChars(words: seq<string>, separator: string, ok: char -> bool)
    requires forall i :: 0 <= i < |separator| ==> ok(separator[i])
    requires forall i, k :: 0 <= i < |words| && 0 <= k < |words[i]| ==> ok(words[i][k])
    ensures forall k :: 0 <= k < |Join(words, separator)| ==> ok(Join(words, separator)[k])
    decreases |words|
  {
    if |words| > 1 {
      var init := words[..|words| - 1];
      assert forall i :: 0 <= i < |init| ==> init[i] == words[i];
      JoinChars(init, separator, ok);
      var last := words[|words| - 1];
      var j := Join(init, separator);
      var r := j + separator + last;
      forall k | 0 <= k < |r| ensures ok(r[k]) {
        if k < |j| {
          assert r[k] == j[k];
        } else if k < |j| + |separator| {
          assert r[k] == separator[k - |j|];
        } else {
          assert r[k] == last[k - |j| - |separator|];
        }
      }
    }
  }

  /** The test `x !== c`, as a predicate to filter with. */
  function IsNot(c: char): (test: char -> bool)
    ensures forall x :: test(x) <==> x != c
  {
    x => x != c
  }

  /**
   * Deleting a one-character separator from the joined text gives the concatenated words,
   * when no word contains that character.
   */
  lemma {:induction false} JoinDropSeparator(words: seq<string>, c: char)
    requires forall i :: 0 <= i < |words| ==> c !in words[i]
    ensures Arrays.Filter(Join(words, [c]), IsNot(c)) == Arrays.Flatten(words)
    decreases |words|
  {
    var keep := IsNot(c);
    if |words| == 1 {
      assert words[..0] == [];
      Arrays.FilterAll(words[0], keep);
    } else if |words| > 1 {
      var init, last := words[..|words| - 1], words[|words| - 1];
      assert forall i :: 0 <= i < |init| ==> init[i] == words[i];
      JoinDropSeparator(init, c);
      var j := Join(init, [c]);
      Arrays.FilterConcat(j + [c], last, keep);
      Arrays.FilterConcat(j, [c], keep);
      Arrays.FilterNone([c], keep);
      Arrays.FilterAll(last, keep);
    }
  }

  /** `words.map((word) => word.toLowerCase())`. */
  function LowerWords(words: seq<string>): (r: seq<string>)
    ensures |r| == |words|
    ensures forall i :: 0 <= i < |words| ==> r[i] == LowerCase(words[i])
  {
    seq(|words|, i requires 0 <= i < |words| => LowerCase(words[i]))
  }

  /** Lowercasing each word and then concatenating is lowercasing the concatenation. */
  lemma {:induction false} FlattenLowerWords(words: seq<string>)
    ensures Arrays.Flatten(LowerWords(words)) == LowerCase(Arrays.Flatten(words))
    decreases |words|
  {
    if words != [] {
      var init := words[..|words| - 1];
      FlattenLowerWords(init);
      assert LowerWords(words)[..|words| - 1] == LowerWords(init);
      LowerCaseConcat(Arrays.Flatten(init), words[|words| - 1]);
    }
  }

  /** A lowercased word is a run of lowercase letters or a run of digits. */
  lemma LowerWordShape(w: string)
    requires IsWordShape(w)
    ensures LowerCase(w) != []
    ensures forall i :: 0 <= i < |w| ==> IsLower(LowerCase(w)[i]) || IsDigit(LowerCase(w)[i])
  {
  }

  /** `slugify(value, separator)`: the lowercased words joined by the separator. */
  function Slugify(value: string, separator: string): string
  {
    Join(LowerWords(SplitWords(value)), separator)
  }

  /** `snakeCase(str)`. */
  function SnakeCase(str: string): string
  {
    Slugify(str, "_")
  }

  /** `kebabCase(str)`. */
  function KebabCase(str: string): string
  {
    Slugify(str, "-")
  }

  /** The lowercased words of `splitWords` hold lowercase letters and digits only. */
  lemma SlugWords(value: string)
    ensures forall i :: 0 <= i < |LowerWords(SplitWords(value))| ==> LowerWords(SplitWords(value))[i] != []
    ensures forall i, k :: 0 <= i < |LowerWords(SplitWords(value))| && 0 <= k < |LowerWords(SplitWords(value))[i]|
              ==> IsLower(LowerWords(SplitWords(value))[i][k]) || IsDigit(LowerWords(SplitWords(value))[i][k])
  {
    var words := SplitWords(value);
    SplitWordsShapes(value);
    forall i | 0 <= i < |words| ensures LowerCase(words[i]) != [] && forall k :: 0 <= k < |words[i]| ==> IsLower(LowerCase(words[i])[k]) || IsDigit(LowerCase(words[i])[k]) {
      LowerWordShape(words[i]);
    }
  }

  /**
   * A slug is made of lowercase letters, digits and separator characters; with a
   * separator that holds no capital, it holds no capital at all.
   */
  lemma SlugifyChars(value: string, separator: string)
    ensures forall k :: 0 <= k < |Slugify(value, separator)| ==>
              IsLower(Slugify(value, separator)[k]) || IsDigit(Slugify(value, separator)[k]) || Slugify(value, separator)[k] in separator
    ensures (forall i :: 0 <= i < |separator| ==> !IsUpper(separator[i])) ==>
              forall k :: 0 <= k < |Slugify(value, separator)| ==> !IsUpper(Slugify(value, separator)[k])
  {
    SlugWords(value);
    JoinChars(LowerWords(SplitWords(value)), separator, c => IsLower(c) || IsDigit(c) || c in separator);
  }

  /** A slug is "" exactly when the value has no word character. */
  lemma SlugifyEmpty(value: string, separator: string)
    ensures Slugify(value, separator) == [] <==> forall i :: 0 <= i < |value| ==> !IsWordChar(value[i])
  {
    SlugWords(value);
    JoinEmpty(LowerWords(SplitWords(value)), separator);
    SplitWordsEmpty(value);
  }

  /**
   * With a one-character separator that is neither a letter nor a digit, deleting the
   * separators from the slug leaves the value's word characters, lowercased.
   */
  lemma SlugifyLetters(value: string, c: char)
    requires !IsWordChar(c)
    ensures Arrays.Filter(Slugify(value, [c]), IsNot(c)) == LowerCase(Arrays.Filter(value, IsWordChar))
  {
    var words := LowerWords(SplitWords(value));
    SlugWords(value);
    JoinDropSeparator(words, c);
    FlattenLowerWords(SplitWords(value));
    SplitWordsCoverage(value);
  }

  /** `snakeCase` output has no capital; without the underscores it is the lowercased word characters. */
  lemma SnakeCaseProperties(str: string)
    ensures forall k :: 0 <= k < |SnakeCase(str)| ==> !IsUpper(SnakeCase(str)[k])
    ensures Arrays.Filter(SnakeCase(str), IsNot('_')) == LowerCase(Arrays.Filter(str, IsWordChar))
    ensures SnakeCase(str) == [] <==> forall i :: 0 <= i < |str| ==> !IsWordChar(str[i])
  {
    assert forall k :: 0 <= k < |SnakeCase(str)| ==> !IsUpper(SnakeCase(str)[k]) by {
      SlugifyChars(str, "_");
    }
    assert Arrays.Filter(SnakeCase(str), IsNot('_')) == LowerCase(Arrays.Filter(str, IsWordChar)) by {
      SlugifyLetters(str, '_');
    }
    assert SnakeCase(str) == [] <==> forall i :: 0 <= i < |str| ==> !IsWordChar(str[i]) by {
      SlugifyEmpty(str, "_");
    }
  }

  /** `kebabCase` output has no capital; without the hyphens it is the lowercased word characters. */
  lemma KebabCaseProperties(str: string)
    ensures forall k :: 0 <= k < |KebabCase(str)| ==> !IsUpper(KebabCase(str)[k])
    ensures Arrays.Filter(KebabCase(str), IsNot('-')) == LowerCase(Arrays.Filter(str, IsWordChar))
    ensures KebabCase(str) == [] <==> forall i :: 0 <= i < |str| ==> !IsWordChar(str[i])
  {
    assert forall k :: 0 <= k < |KebabCase(str)| ==> !IsUpper(KebabCase(str)[k]) by {
      SlugifyChars(str, "-");
    }
    assert Arrays.Filter(KebabCase(str), IsNot('-')) == LowerCase(Arrays.Filter(str, IsWordChar)) by {
      SlugifyLetters(str, '-');
    }
    assert KebabCase(str) == [] <==> forall i :: 0 <= i < |str| ==> !IsWordChar(str[i]) by {
      SlugifyEmpty(str, "-");
    }
  }

  /** `rest.map((word) => capitalize(word.toLowerCase()))`. */
  function CapitalizedWords(words: seq<string>): (r: seq<string>)
    ensures |r| == |words|
    ensures forall i :: 0 <= i < |words| ==> r[i] == Capitalize(LowerCase(words[i]))
  {
    seq(|words|, i requires 0 <= i < |words| => Capitalize(LowerCase(words[i])))
  }

  /** The words `camelize` joins: the first lowercased, the others lowercased and capitalised. */
  function CamelParts(words: seq<string>): (parts: seq<string>)
    requires words != []
    ensures |parts| == |words|
    ensures parts[0] == LowerCase(words[0])
    ensures forall i :: 0 < i < |words| ==> parts[i] == Capitalize(LowerCase(words[i]))
  {
    [LowerCase(words[0])] + CapitalizedWords(words[1..])
  }

  /**
   * `camelize(value)`: "" when there is no first word; otherwise the camel-case parts
   * joined with no separator.
   */
  function Camelize(value: string): string
  {
    var words := SplitWords(value);
    if words == [] then [] else Join(CamelParts(words), [])
  }

  /** `camelCase(str)`. */
  function CamelCase(str: string): string
  {
    Camelize(str)
  }

  /** Lowercasing twice is lowercasing once. */
  lemma LowerCaseIdempotent(w: string)
    ensures LowerCase(LowerCase(w)) == LowerCase(w)
  {
  }

  /** Lowercasing a capitalised lowercased word gives the lowercased word. */
  lemma LowerCapitalize(w: string)
    ensures LowerCase(Capitalize(LowerCase(w))) == LowerCase(w)
  {
  }

  /** The camel-case parts differ from the words only in case. */
  lemma CamelPartsLower(words: seq<string>)
    requires words != []
    ensures LowerWords(CamelParts(words)) == LowerWords(words)
  {
    var parts := CamelParts(words);
    var lp, lw := LowerWords(parts), LowerWords(words);
    forall i | 0 <= i < |words| ensures lp[i] == lw[i] {
      if i == 0 {
        LowerCaseIdempotent(words[0]);
      } else {
        LowerCapitalize(words[i]);
      }
    }
  }

  /** The camel-case parts concatenated spell the words up to case. */
  lemma CamelPartsFlatten(words: seq<string>)
    requires words != []
    ensures LowerCase(Join(CamelParts(words), [])) == LowerCase(Arrays.Flatten(words))
  {
    var parts := CamelParts(words);
    JoinEmptySeparator(parts);
    FlattenLowerWords(parts);
    FlattenLowerWords(words);
    CamelPartsLower(words);
  }

  /** Camel-case parts of non-empty words join to a non-empty string that spells them up to case. */
  lemma CamelJoin(words: seq<string>)
    requires words != []
    requires forall i :: 0 <= i < |words| ==> words[i] != []
    ensures Join(CamelParts(words), []) != []
    ensures LowerCase(Join(CamelParts(words), [])) == LowerCase(Arrays.Flatten(words))
  {
    CamelPartsFlatten(words);
    CamelPartsNonEmpty(words);
    JoinEmpty(CamelParts(words), []);
  }

  /**
   * `camelCase` is "" exactly when the value has no word character, and it spells the
   * value's word characters up to case.
   */
  lemma CamelCaseProperties(str: string)
    ensures CamelCase(str) == [] <==> forall i :: 0 <= i < |str| ==> !IsWordChar(str[i])
    ensures LowerCase(CamelCase(str)) == LowerCase(Arrays.Filter(str, IsWordChar))
  {
    var words := SplitWords(str);
    assert CamelCase(str) == if words == [] then [] else Join(CamelParts(words), []);
    SplitWordsEmpty(str);
    SplitWordsCoverage(str);
    SplitWordsNonEmpty(str);
    if words != [] {
      CamelJoin(words);
    }
  }

  /** The camel-case parts of non-empty words are non-empty. */
  lemma CamelPartsNonEmpty(words: seq<string>)
    requires words != []
    requires forall i :: 0 <= i < |words| ==> words[i] != []
    ensures forall i :: 0 <= i < |CamelParts(words)| ==> CamelParts(words)[i] != []
  {
  }

  /** `camelCase` output starts with no capital. */
  lemma CamelCaseStartsLower(str: string)
    ensures CamelCase(str) != [] ==> !IsUpper(CamelCase(str)[0])
  {
    var words := SplitWords(str);
    if words != [] {
      var parts := CamelParts(words);
      SplitWordsShapes(str);
      LowerWordShape(words[0]);
      JoinEmptySeparator(parts);
      assert parts == [parts[0]] + parts[1..];
      Arrays.FlattenCons(parts[0], parts[1..]);
    }
  }

  // ---------------------------------------------------------------------------------
  // trim, isBlank, isNotBlank
  // ---------------------------------------------------------------------------------

  /** `trim(str)`: the trimmed string, or "" for `undefined` and `null`. */
  function Trim(str: Optional<string>): (r: string)
    ensures !IsDefined(str) ==> r == []
    ensures IsDefined(str) ==> r == TrimWhitespace(str.value)
  {
    if IsDefined(str) then TrimWhitespace(str.value) else []
  }

  /** `isBlank(str)`: `undefined`, `null`, or nothing left after trimming. */
  predicate IsBlank(str: Optional<string>)
  {
    !IsDefined(str) || |TrimWhitespace(str.value)| == 0
  }

  /** `isNotBlank(str)`: defined, with something left after trimming. */
  predicate IsNotBlank(str: Optional<string>)
  {
    IsDefined(str) && |TrimWhitespace(str.value)| > 0
  }

  /** A string is blank exactly when it is absent or all whitespace. */
  lemma IsBlankIff(str: Optional<string>)
    ensures IsBlank(str) <==> !IsDefined(str) || forall i :: 0 <= i < |str.value| ==> IsWhitespace(str.value[i])
  {
    if IsDefined(str) {
      TrimWhitespaceEmpty(str.value);
    }
  }

  /** `isNotBlank` is the negation of `isBlank`, and blank is having nothing to `trim` to. */
  lemma IsNotBlankNegatesIsBlank(str: Optional<string>)
    ensures IsNotBlank(str) <==> !IsBlank(str)
    ensures IsBlank(str) <==> Trim(str) == []
  {
  }

  // ---------------------------------------------------------------------------------
  // The documented examples
  // ---------------------------------------------------------------------------------

  /** The words of a value that is its own trim, from the spans of its scan. */
  lemma SplitWordsBySpans(value: string, spans: seq<Span>)
    requires value != [] && TrimWhitespace(value) == value
    requires Scan(Matches(value), 0) == spans
    ensures SplitWords(value) == Slices(value, spans)
  {
  }

  /** A scan from `p` that takes a match and then one more that ends the string. */
  lemma ScanTwo(m: seq<nat>, p: nat)
    requires InBounds(m) && p < |m| && 0 < m[p] && p + m[p] < |m|
    requires p + m[p] + m[p + m[p]] == |m|
    ensures Scan(m, p) == [Span(p, p + m[p]), Span(p + m[p], |m|)]
  {
    ScanStep(m, p);
    ScanStep(m, p + m[p]);
  }

  /** The match lengths at the starts of the words of "HTMLParser". */
  lemma MatchesHTMLParser(s: string)
    requires s == "HTMLParser"
    ensures |Matches(s)| == 10 && Matches(s)[0] == 4 && Matches(s)[4] == 6
  {
    assert Run(s, 0, Upper) == 5 by { assert Run(s, 5, Upper) == 0; }
    assert Run(s, 5, Lower) == 5 by { assert Run(s, 10, Lower) == 0; }
    assert Run(s, 4, Upper) == 1;
  }

  /** The two words "HTMLParser" is cut into. */
  lemma SlicesHTMLParser(s: string)
    requires s == "HTMLParser"
    ensures Slices(s, [Span(0, 4), Span(4, 10)]) == ["HTML", "Parser"]
  {
    assert s[0..4] == "HTML" && s[4..10] == "Parser";
  }

  /** `splitWords("HTMLParser")` is `["HTML", "Parser"]`: the acronym gives back the capital of the next word. */
  lemma SplitWordsHTMLParser(s: string)
    requires s == "HTMLParser"
    ensures SplitWords(s) == ["HTML", "Parser"]
  {
    NothingToTrim(s);
    MatchesHTMLParser(s);
    ScanTwo(Matches(s), 0);
    SplitWordsBySpans(s, [Span(0, 4), Span(4, 10)]);
    SlicesHTMLParser(s);
  }

  /** The match lengths at the starts of the words of "ABc". */
  lemma MatchesABc(s: string)
    requires s == "ABc"
    ensures |Matches(s)| == 3 && Matches(s)[0] == 1 && Matches(s)[1] == 2
  {
    assert Run(s, 0, Upper) == 2 by { assert Run(s, 2, Upper) == 0; }
    assert Run(s, 2, Lower) == 1 by { assert Run(s, 3, Lower) == 0; }
  }

  /** The two words "ABc" is cut into. */
  lemma SlicesABc(s: string)
    requires s == "ABc"
    ensures Slices(s, [Span(0, 1), Span(1, 3)]) == ["A", "Bc"]
  {
    assert s[0..1] == "A" && s[1..3] == "Bc";
  }

  /** `splitWords("ABc")` is `["A", "Bc"]`. */
  lemma SplitWordsABc(s: string)
    requires s == "ABc"
    ensures SplitWords(s) == ["A", "Bc"]
  {
    NothingToTrim(s);
    MatchesABc(s);
    ScanTwo(Matches(s), 0);
    SplitWordsBySpans(s, [Span(0, 1), Span(1, 3)]);
    SlicesABc(s);
  }

  /** The match lengths at the starts of the words of "fooBar2". */
  lemma MatchesFooBar2(s: string)
    requires s == "fooBar2"
    ensures |Matches(s)| == 7 && Matches(s)[0] == 3 && Matches(s)[3] == 3 && Matches(s)[6] == 1
  {
    assert Run(s, 0, Lower) == 3 by { assert Run(s, 3, Lower) == 0; }
    assert Run(s, 4, Lower) == 2 by { assert Run(s, 6, Lower) == 0; }
    assert Run(s, 3, Upper) == 1;
    assert Run(s, 6, Digit) == 1;
  }

  /** The scan of "fooBar2" from the match lengths at the starts of its words. */
  lemma ScanFooBar2(m: seq<nat>)
    requires InBounds(m) && |m| == 7 && m[0] == 3 && m[3] == 3 && m[6] == 1
    ensures Scan(m, 0) == [Span(0, 3), Span(3, 6), Span(6, 7)]
  {
    ScanTwo(m, 3);
    ScanStep(m, 0);
  }

  /** The three words "fooBar2" is cut into. */
  lemma SlicesFooBar2(s: string)
    requires s == "fooBar2"
    ensures Slices(s, [Span(0, 3), Span(3, 6), Span(6, 7)]) == ["foo", "Bar", "2"]
  {
    assert s[0..3] == "foo" && s[3..6] == "Bar" && s[6..7] == "2";
  }

  /** `splitWords("fooBar2")` is `["foo", "Bar", "2"]`. */
  lemma SplitWordsFooBar2(s: string)
    requires s == "fooBar2"
    ensures SplitWords(s) == ["foo", "Bar", "2"]
  {
    NothingToTrim(s);
    MatchesFooBar2(s);
    ScanFooBar2(Matches(s));
    SplitWordsBySpans(s, [Span(0, 3), Span(3, 6), Span(6, 7)]);
    SlicesFooBar2(s);
  }

  /** The match lengths at the starts of the words of "HelloWorld". */
  lemma MatchesHelloWorld(s: string)
    requires s == "HelloWorld"
    ensures |Matches(s)| == 10 && Matches(s)[0] == 5 && Matches(s)[5] == 5
  {
    assert Run(s, 1, Lower) == 4 by { assert Run(s, 5, Lower) == 0; }
    assert Run(s, 6, Lower) == 4 by { assert Run(s, 10, Lower) == 0; }
    assert Run(s, 0, Upper) == 1 && Run(s, 5, Upper) == 1;
  }

  /** The two words "HelloWorld" is cut into. */
  lemma SlicesHelloWorld(s: string)
    requires s == "HelloWorld"
    ensures Slices(s, [Span(0, 5), Span(5, 10)]) == ["Hello", "World"]
  {
    assert s[0..5] == "Hello" && s[5..10] == "World";
  }

  /** `splitWords("HelloWorld")` is `["Hello", "World"]`. */
  lemma SplitWordsHelloWorld(s: string)
    requires s == "HelloWorld"
    ensures SplitWords(s) == ["Hello", "World"]
  {
    NothingToTrim(s);
    MatchesHelloWorld(s);
    ScanTwo(Matches(s), 0);
    SplitWordsBySpans(s, [Span(0, 5), Span(5, 10)]);
    SlicesHelloWorld(s);
  }

  /** The match lengths at the two words of "hello world" and at the space between them. */
  lemma MatchesHelloSpaceWorld(s: string)
    requires s == "hello world"
    ensures |Matches(s)| == 11 && Matches(s)[0] == 5 && Matches(s)[5] == 0 && Matches(s)[6] == 5
  {
    assert Run(s, 0, Lower) == 5 by { assert Run(s, 5, Lower) == 0; }
    assert Run(s, 6, Lower) == 5 by { assert Run(s, 11, Lower) == 0; }
  }

  /** The scan of "hello world": a word, the skipped space, a word. */
  lemma ScanHelloSpaceWorld(m: seq<nat>)
    requires InBounds(m) && |m| == 11 && m[0] == 5 && m[5] == 0 && m[6] == 5
    ensures Scan(m, 0) == [Span(0, 5), Span(6, 11)]
  {
    ScanStep(m, 0);
    ScanStep(m, 5);
    ScanStep(m, 6);
  }

  /** The two words "hello world" is cut into. */
  lemma SlicesHelloSpaceWorld(s: string)
    requires s == "hello world"
    ensures Slices(s, [Span(0, 5), Span(6, 11)]) == ["hello", "world"]
  {
    assert s[0..5] == "hello" && s[6..11] == "world";
  }

  /** `splitWords("hello world")` is `["hello", "world"]`. */
  lemma SplitWordsHelloSpaceWorld(s: string)
    requires s == "hello world"
    ensures SplitWords(s) == ["hello", "world"]
  {
    NothingToTrim(s);
    MatchesHelloSpaceWorld(s);
    ScanHelloSpaceWorld(Matches(s));
    SplitWordsBySpans(s, [Span(0, 5), Span(6, 11)]);
    SlicesHelloSpaceWorld(s);
  }

  /** Joining two words. */
  lemma JoinTwo(words: seq<string>, separator: string)
    requires |words| == 2
    ensures Join(words, separator) == words[0] + separator + words[1]
  {
    assert words[..1] == [words[0]];
  }

  /** Joining three words. */
  lemma JoinThree(words: seq<string>, separator: string)
    requires |words| == 3
    ensures Join(words, separator) == words[0] + separator + words[1] + separator + words[2]
  {
    JoinTwo(words[..2], separator);
  }

  /** The lowercased words of "HelloWorld". */
  lemma LowerWordsHelloWorld(words: seq<string>)
    requires words == ["Hello", "World"]
    ensures LowerWords(words) == ["hello", "world"]
  {
    assert LowerCase("Hello") == "hello" && LowerCase("World") == "world";
  }

  /** `snakeCase("HelloWorld")` is `"hello_world"`. */
  lemma SnakeCaseHelloWorld(s: string)
    requires s == "HelloWorld"
    ensures SnakeCase(s) == "hello_world"
  {
    SplitWordsHelloWorld(s);
    LowerWordsHelloWorld(SplitWords(s));
    JoinTwo(["hello", "world"], "_");
  }

  /** The lowercased words of "fooBar2". */
  lemma LowerWordsFooBar2(words: seq<string>)
    requires words == ["foo", "Bar", "2"]
    ensures LowerWords(words) == ["foo", "bar", "2"]
  {
    assert LowerCase("foo") == "foo" && LowerCase("Bar") == "bar" && LowerCase("2") == "2";
  }

  /** `kebabCase("fooBar2")` is `"foo-bar-2"`. */
  lemma KebabCaseFooBar2(s: string)
    requires s == "fooBar2"
    ensures KebabCase(s) == "foo-bar-2"
  {
    SplitWordsFooBar2(s);
    LowerWordsFooBar2(SplitWords(s));
    JoinThree(["foo", "bar", "2"], "-");
  }

  /** The camel-case parts of the words of "hello world". */
  lemma CamelPartsHelloWorld(words: seq<string>)
    requires words == ["hello", "world"]
    ensures CamelParts(words) == ["hello", "World"]
  {
    assert LowerCase("hello") == "hello" && LowerCase("world") == "world";
    assert Capitalize("world") == "World";
  }

  /** `camelCase("hello world")` is `"helloWorld"`. */
  lemma CamelCaseHelloWorld(s: string)
    requires s == "hello world"
    ensures CamelCase(s) == "helloWorld"
  {
    SplitWordsHelloSpaceWorld(s);
    CamelPartsHelloWorld(SplitWords(s));
    JoinTwo(["hello", "World"], []);
  }

  // ---------------------------------------------------------------------------------
  // Proof helpers. These state no property of the library: each is one step of
  // sequence reasoning, kept as a lemma of its own to keep the proofs that use it
  // small and stable.
  // ---------------------------------------------------------------------------------

  /** Concatenation is associative. */
  lemma AppendAssoc(a: string, b: string, c: string)
    ensures a + (b + c) == (a + b) + c
  {
  }

  /** A non-empty slice is its first character followed by the rest. */
  lemma SliceCons(s: string, p: nat, q: nat)
    requires p < q <= |s|
    ensures [s[p]] + s[p + 1..q] == s[p..q]
  {
  }

  /** Equal tails behind the same head. */
  lemma Chain(a: string, b: string, c: string, d: string, x: string)
    requires a == x + b && b == c && d == x + c
    ensures a == d
  {
  }
}
