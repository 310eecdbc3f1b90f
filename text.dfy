/** The JavaScript string primitives the log tailer and the views rely on:
    `indexOf`, `split` and `join` with a string separator, `startsWith`,
    `trim`, and `String(n)` for a non-negative integer. Strings are
    `seq<char>`, sequences of Unicode scalar values; JavaScript strings are
    sequences of UTF-16 code units, so lengths and indices agree only for
    text inside the Basic Multilingual Plane. */
module Text {
  import opened Wrappers

  function AllButLast<T>(s: seq<T>): seq<T>
    requires |s| > 0
  {
    s[..|s| - 1]
  }

  function Last<T>(s: seq<T>): T
    requires |s| > 0
  {
    s[|s| - 1]
  }

  // ---------------------------------------------------------------------------
  // Searching

  /** `sep` occurs in `s` starting at position `i`. */
  predicate OccursAt(s: string, sep: string, i: int) {
    0 <= i && i + |sep| <= |s| && s[i..i + |sep|] == sep
  }

  /** `s.indexOf(sep, k)`: the first occurrence of `sep` at or after `k`. */
  function IndexOfFrom(s: string, sep: string, k: nat): (r: Option<nat>)
    requires |sep| > 0
    ensures r.Some? ==> k <= r.value && OccursAt(s, sep, r.value)
    ensures r.Some? ==> forall j :: k <= j < r.value ==> !OccursAt(s, sep, j)
    ensures r.None? ==> forall j :: k <= j ==> !OccursAt(s, sep, j)
    decreases |s| - k
  {
    if k + |sep| > |s| then None
    else if s[k..k + |sep|] == sep then Some(k)
    else IndexOfFrom(s, sep, k + 1)
  }

  function IndexOf(s: string, sep: string): (r: Option<nat>)
    requires |sep| > 0
    ensures r.Some? ==> OccursAt(s, sep, r.value)
    ensures r.Some? ==> forall j :: 0 <= j < r.value ==> !OccursAt(s, sep, j)
    ensures r.None? ==> forall j :: 0 <= j ==> !OccursAt(s, sep, j)
  {
    IndexOfFrom(s, sep, 0)
  }

  predicate Contains(s: string, sep: string)
    requires |sep| > 0
  {
    IndexOf(s, sep).Some?
  }

  /** The first occurrence is the only position `IndexOf` can report. */
  lemma IndexOfIsFirst(s: string, sep: string, i: nat)
    requires |sep| > 0
    requires OccursAt(s, sep, i)
    requires forall j :: 0 <= j < i ==> !OccursAt(s, sep, j)
    ensures IndexOf(s, sep) == Some(i)
  {
  }

  lemma NotContains(s: string, sep: string)
    requires |sep| > 0
    ensures !Contains(s, sep) <==> forall j :: !OccursAt(s, sep, j)
  {
    if !Contains(s, sep) {
      forall j ensures !OccursAt(s, sep, j) {
        if j < 0 {
        }
      }
    }
  }

  /** Appending text after the first occurrence does not move it. */
  lemma IndexOfAppend(x: string, c: string, sep: string)
    requires |sep| > 0 && IndexOf(x, sep).Some?
    ensures IndexOf(x + c, sep) == IndexOf(x, sep)
  {
    var i := IndexOf(x, sep).value;
    SliceOfAppend(x, c, i, i + |sep|);
    forall j | 0 <= j < i
      ensures !OccursAt(x + c, sep, j)
    {
      SliceOfAppend(x, c, j, j + |sep|);
      assert !OccursAt(x, sep, j);
    }
    IndexOfIsFirst(x + c, sep, i);
  }

  // ---------------------------------------------------------------------------
  // split and join

  /** `s.split(sep)` for a non-empty separator: the pieces between the
      occurrences of `sep` found scanning left to right. */
  function Split(s: string, sep: string): (parts: seq<string>)
    requires |sep| > 0
    ensures |parts| >= 1
    decreases |s|
  {
    match IndexOf(s, sep)
    case None => [s]
    case Some(i) => [s[..i]] + Split(s[i + |sep|..], sep)
  }

  /** `parts.join(sep)`. */
  function Join(parts: seq<string>, sep: string): string
  {
    if |parts| == 0 then ""
    else if |parts| == 1 then parts[0]
    else parts[0] + sep + Join(parts[1..], sep)
  }

  /** No piece of a split contains the separator. */
  lemma {:induction false} SplitPartsLackSeparator(s: string, sep: string)
    requires |sep| > 0
    ensures forall k :: 0 <= k < |Split(s, sep)| ==> !Contains(Split(s, sep)[k], sep)
    decreases |s|
  {
    match IndexOf(s, sep)
    case None =>
    case Some(i) =>
      var rest := s[i + |sep|..];
      SplitPartsLackSeparator(rest, sep);
      forall j ensures !OccursAt(s[..i], sep, j) {
        if OccursAt(s[..i], sep, j) {
          assert s[..i][j..j + |sep|] == s[j..j + |sep|];
          assert OccursAt(s, sep, j);
        }
      }
      NotContains(s[..i], sep);
  }

  // Slicing facts stated once, outside any context with quantifiers over
  // occurrences, where the solver proves them cheaply.

  lemma Reassemble<T>(s: seq<T>, i: nat, j: nat)
    requires i <= j <= |s|
    ensures s[..i] + s[i..j] + s[j..] == s
  {
  }

  lemma SliceOfAppend<T>(x: seq<T>, c: seq<T>, i: nat, j: nat)
    requires i <= j <= |x|
    ensures (x + c)[i..j] == x[i..j]
    ensures (x + c)[..j] == x[..j]
    ensures (x + c)[j..] == x[j..] + c
  {
  }

  lemma SlicesOfConcat<T>(a: seq<T>, b: seq<T>, c: seq<T>)
    ensures (a + b + c)[..|a|] == a
    ensures (a + b + c)[|a|..|a| + |b|] == b
    ensures (a + b + c)[|a| + |b|..] == c
  {
  }

  /** Joining a piece onto a non-empty list puts the separator between. */
  lemma JoinCons(a: string, tail: seq<string>, sep: string)
    requires |tail| >= 1
    ensures Join([a] + tail, sep) == a + sep + Join(tail, sep)
  {
    assert ([a] + tail)[1..] == tail;
  }

  /** A split loses nothing: joining the pieces back gives the input. */
  lemma {:induction false} JoinSplit(s: string, sep: string)
    requires |sep| > 0
    ensures Join(Split(s, sep), sep) == s
    decreases |s|
  {
    match IndexOf(s, sep)
    case None =>
    case Some(i) =>
      var rest := s[i + |sep|..];
      JoinSplit(rest, sep);
      JoinCons(s[..i], Split(rest, sep), sep);
      Reassemble(s, i, i + |sep|);
  }

  /** Splitting at the first occurrence `i`: the piece before it, then the
      split of the text after it. */
  lemma SplitAt(s: string, sep: string, i: nat)
    requires |sep| > 0 && IndexOf(s, sep) == Some(i)
    ensures Split(s, sep) == [s[..i]] + Split(s[i + |sep|..], sep)
  {
  }

  /** Text without the separator splits into itself. */
  lemma SplitWhole(s: string, sep: string)
    requires |sep| > 0 && !Contains(s, sep)
    ensures Split(s, sep) == [s]
  {
  }

  /** A one-character separator placed after a piece that lacks it is the
      first occurrence. */
  lemma FirstOccurrenceAfter(p: string, sep: string, tail: string)
    requires |sep| == 1 && !Contains(p, sep)
    ensures IndexOf(p + sep + tail, sep) == Some(|p|)
  {
    var s := p + sep + tail;
    NotContains(p, sep);
    SlicesOfConcat(p, sep, tail);
    assert OccursAt(s, sep, |p|);
    forall j | 0 <= j < |p|
      ensures !OccursAt(s, sep, j)
    {
      SliceOfAppend(p, sep + tail, j, j + 1);
      assert p + (sep + tail) == s;
      assert !OccursAt(p, sep, j);
    }
    IndexOfIsFirst(s, sep, |p|);
  }

  /** Joining with a one-character separator and splitting again gives the
      pieces back, provided no piece contains the separator. */
  lemma {:induction false} SplitJoin(parts: seq<string>, sep: string)
    requires |sep| == 1 && |parts| >= 1
    requires forall k :: 0 <= k < |parts| ==> !Contains(parts[k], sep)
    ensures Split(Join(parts, sep), sep) == parts
  {
    if |parts| == 1 {
      SplitWhole(parts[0], sep);
    } else {
      var p, rest := parts[0], parts[1..];
      var tail := Join(rest, sep);
      assert parts == [p] + rest;
      JoinCons(p, rest, sep);
      FirstOccurrenceAfter(p, sep, tail);
      SlicesOfConcat(p, sep, tail);
      SplitAt(p + sep + tail, sep, |p|);
      assert forall k :: 0 <= k < |rest| ==> rest[k] == parts[k + 1];
      SplitJoin(rest, sep);
    }
  }

  lemma AppendAssociative<T>(a: seq<T>, b: seq<T>, c: seq<T>)
    ensures (a + b) + c == a + (b + c)
  {
  }

  lemma AllButLastCons<T>(a: T, tail: seq<T>)
    requires |tail| > 0
    ensures AllButLast([a] + tail) == [a] + AllButLast(tail)
    ensures Last([a] + tail) == Last(tail)
  {
  }

  lemma AllButLastSnoc<T>(a: seq<T>, x: T)
    ensures AllButLast(a + [x]) == a && Last(a + [x]) == x
  {
  }

  /** Splitting a concatenation: every piece of `x` before its last one is
      final, and the text after the last separator of `x` is continued by `c`.
      This is what lets a stream be split one chunk at a time. */
  lemma {:induction false} SplitAppend(x: string, c: string, sep: string)
    requires |sep| > 0
    ensures Split(x + c, sep)
         == AllButLast(Split(x, sep)) + Split(Last(Split(x, sep)) + c, sep)
    decreases |x|
  {
    match IndexOf(x, sep)
    case None =>
      SplitWhole(x, sep);
    case Some(i) =>
      var rest := x[i + |sep|..];
      var tail := Split(rest, sep);
      IndexOfAppend(x, c, sep);
      SliceOfAppend(x, c, i, i + |sep|);
      SliceOfAppend(x, c, i, i);
      SplitAt(x, sep, i);
      SplitAt(x + c, sep, i);
      SplitAppend(rest, c, sep);
      AllButLastCons(x[..i], tail);
      AppendAssociative([x[..i]], AllButLast(tail), Split(Last(tail) + c, sep));
  }

  // ---------------------------------------------------------------------------
  // startsWith and trim

  predicate StartsWith(s: string, prefix: string) {
    |prefix| <= |s| && s[..|prefix|] == prefix
  }

  /** The characters ECMAScript's `trim` removes: WhiteSpace (tab, vertical
      tab, form feed, space, no-break space, byte order mark and the other
      Space_Separator characters) and LineTerminator. */
  predicate IsWhitespace(c: char) {
    || c == '\t' || c == '\U{000B}' || c == '\U{000C}' || c == ' '
    || c == '\U{00A0}' || c == '\U{FEFF}' || c == '\U{1680}'
    || ('\U{2000}' <= c <= '\U{200A}')
    || c == '\U{202F}' || c == '\U{205F}' || c == '\U{3000}'
    || c == '\n' || c == '\r' || c == '\U{2028}' || c == '\U{2029}'
  }

  function TrimStart(s: string): (r: string)
    ensures |r| <= |s|
  {
    if |s| > 0 && IsWhitespace(s[0]) then TrimStart(s[1..]) else s
  }

  function TrimEnd(s: string): (r: string)
    ensures |r| <= |s|
  {
    if |s| > 0 && IsWhitespace(s[|s| - 1]) then TrimEnd(s[..|s| - 1]) else s
  }

  /** `s.trim()`. */
  function Trim(s: string): string {
    TrimEnd(TrimStart(s))
  }

  /** How many whitespace characters `trim` cuts from the front of `s`. */
  function LeadingWhitespace(s: string): nat {
    |s| - |TrimStart(s)|
  }

  lemma {:induction false} TrimStartSpec(s: string)
    ensures |TrimStart(s)| <= |s| && TrimStart(s) == s[|s| - |TrimStart(s)|..]
    ensures forall i :: 0 <= i < |s| - |TrimStart(s)| ==> IsWhitespace(s[i])
    ensures TrimStart(s) == [] || !IsWhitespace(TrimStart(s)[0])
  {
    if |s| > 0 && IsWhitespace(s[0]) {
      TrimStartSpec(s[1..]);
    }
  }

  lemma {:induction false} TrimEndSpec(s: string)
    ensures |TrimEnd(s)| <= |s| && TrimEnd(s) == s[..|TrimEnd(s)|]
    ensures forall i :: |TrimEnd(s)| <= i < |s| ==> IsWhitespace(s[i])
    ensures TrimEnd(s) == [] || !IsWhitespace(TrimEnd(s)[|TrimEnd(s)| - 1])
  {
    if |s| > 0 && IsWhitespace(s[|s| - 1]) {
      TrimEndSpec(s[..|s| - 1]);
    }
  }

  /** `trim` keeps the longest middle part of `s` that neither starts nor
      ends with whitespace; everything it cuts off on either side is
      whitespace. */
  lemma TrimSpec(s: string)
    ensures var r := Trim(s);
            && (r == [] || (!IsWhitespace(r[0]) && !IsWhitespace(r[|r| - 1])))
            && LeadingWhitespace(s) + |r| <= |s|
            && r == s[LeadingWhitespace(s)..LeadingWhitespace(s) + |r|]
            && (forall k :: 0 <= k < LeadingWhitespace(s) ==> IsWhitespace(s[k]))
            && (forall k :: LeadingWhitespace(s) + |r| <= k < |s| ==> IsWhitespace(s[k]))
  {
    var t := TrimStart(s);
    TrimStartSpec(s);
    TrimEndSpec(t);
    var r := TrimEnd(t);
    var i := |s| - |t|;
    assert r == s[i..i + |r|];
    assert forall k :: i + |r| <= k < |s| ==> s[k] == t[k - i];
  }

  /** Trimming twice is trimming once. */
  lemma TrimIdempotent(s: string)
    ensures Trim(Trim(s)) == Trim(s)
  {
    var t := Trim(s);
    TrimSpec(s);
    assert TrimStart(t) == t;
    assert TrimEnd(t) == t;
  }

  /** A string that neither starts nor ends with whitespace is its own trim. */
  lemma TrimKeepsTrimmed(s: string)
    requires s == [] || (!IsWhitespace(s[0]) && !IsWhitespace(s[|s| - 1]))
    ensures Trim(s) == s
  {
    assert TrimStart(s) == s;
  }

  // ---------------------------------------------------------------------------
  // Decimal rendering of non-negative integers

  function DigitChar(d: nat): (c: char)
    requires d < 10
    ensures '0' <= c <= '9'
  {
    ['0', '1', '2', '3', '4', '5', '6', '7', '8', '9'][d]
  }

  predicate IsDigits(s: string) {
    forall i :: 0 <= i < |s| ==> '0' <= s[i] <= '9'
  }

  /** `String(n)` for an integer `n >= 0` below 10^21: its decimal digits,
      with no leading zero. From 10^21 on JavaScript writes the number in
      exponent notation, which this rendering does not follow; the
      millisecond timestamps it is used for stay far below that. */
  function Decimal(n: nat): (s: string)
    ensures |s| >= 1 && IsDigits(s)
    ensures |s| > 1 ==> s[0] != '0'
  {
    if n < 10 then [DigitChar(n)] else Decimal(n / 10) + [DigitChar(n % 10)]
  }

  /** Reads a string of decimal digits back as a number. */
  function DecimalValue(s: string): nat
    requires IsDigits(s)
  {
    if |s| == 0 then 0
    else DecimalValue(s[..|s| - 1]) * 10 + ((s[|s| - 1] as int) - ('0' as int))
  }

  lemma {:induction false} DecimalRoundTrip(n: nat)
    ensures DecimalValue(Decimal(n)) == n
  {
    var s := Decimal(n);
    if n >= 10 {
      DecimalRoundTrip(n / 10);
      assert s[..|s| - 1] == Decimal(n / 10);
      assert DigitChar(n % 10) as int - '0' as int == n % 10;
    } else {
      assert DigitChar(n) as int - '0' as int == n;
    }
  }
}
