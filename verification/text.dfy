/**
 * The handful of Python `str` operations the table manager relies on:
 * `strip`/`lstrip`/`rstrip` with a character set, `lower`, `split` on a
 * single character (with and without a limit of one), the first occurrence
 * of a substring, `isdigit` and `int()`. Characters are restricted to what
 * these operations do on ASCII text.
 */
module Text {
  import opened Wrappers

  /** The characters Python's argument-less `strip()` removes, restricted to ASCII:
      tab, line feed, vertical tab, form feed, carriage return, the four
      information separators 0x1C-0x1F, and space. */
  const Whitespace: set<char> :=
    {' ', '\t', '\n', '\U{0B}', '\U{0C}', '\r', '\U{1C}', '\U{1D}', '\U{1E}', '\U{1F}'}

  // ---------------------------------------------------------------------------
  // strip / lstrip / rstrip
  // ---------------------------------------------------------------------------

  /** `s.lstrip(cs)`: drops every leading character that belongs to `cs`. */
  function TrimLeft(s: string, cs: set<char>): (r: string)
    ensures |r| <= |s| && r == s[|s| - |r|..]
    ensures forall k :: 0 <= k < |s| - |r| ==> s[k] in cs
    ensures r == [] || r[0] !in cs
  {
    if |s| > 0 && s[0] in cs then TrimLeft(s[1..], cs) else s
  }

  /** `s.rstrip(cs)`: drops every trailing character that belongs to `cs`. */
  function TrimRight(s: string, cs: set<char>): (r: string)
    ensures |r| <= |s| && r == s[..|r|]
    ensures forall k :: |r| <= k < |s| ==> s[k] in cs
    ensures r == [] || r[|r| - 1] !in cs
  {
    if |s| > 0 && s[|s| - 1] in cs then TrimRight(s[..|s| - 1], cs) else s
  }

  /** Nothing to trim on the left. */
  lemma TrimLeftNothing(s: string, cs: set<char>)
    requires s == [] || s[0] !in cs
    ensures TrimLeft(s, cs) == s
  {
  }

  /** Nothing to trim on the right. */
  lemma TrimRightNothing(s: string, cs: set<char>)
    requires s == [] || s[|s| - 1] !in cs
    ensures TrimRight(s, cs) == s
  {
  }

  /** A trimmed character at the left end goes. */
  lemma TrimLeftOne(c: char, s: string, cs: set<char>)
    requires c in cs
    ensures TrimLeft([c] + s, cs) == TrimLeft(s, cs)
  {
    assert ([c] + s)[1..] == s;
  }

  /** Exactly one trimmed character at the left end goes. */
  lemma TrimLeftSingle(c: char, u: string, cs: set<char>)
    requires c in cs && |u| > 0 && u[0] !in cs
    ensures TrimLeft([c] + u, cs) == u
  {
    assert ([c] + u)[1..] == u;
  }

  /** A trimmed character at the right end goes. */
  lemma TrimRightOne(s: string, c: char, cs: set<char>)
    requires c in cs
    ensures TrimRight(s + [c], cs) == TrimRight(s, cs)
  {
    assert (s + [c])[..|s|] == s;
  }

  /** `s[i..j]` is what remains of `s` once the characters of `cs` are removed
      from both ends: everything outside the span is in `cs`, and the span is
      either empty or begins and ends outside `cs`. */
  ghost predicate StrippedAt(s: string, cs: set<char>, i: int, j: int) {
    && 0 <= i <= j <= |s|
    && (forall k :: 0 <= k < i ==> s[k] in cs)
    && (forall k :: j <= k < |s| ==> s[k] in cs)
    && (i == j || (s[i] !in cs && s[j - 1] !in cs))
  }

  /** `s.strip(cs)`. */
  function Strip(s: string, cs: set<char>): (r: string)
    ensures exists i, j :: StrippedAt(s, cs, i, j) && r == s[i..j]
  {
    var l := TrimLeft(s, cs);
    var r := TrimRight(l, cs);
    assert StrippedAt(s, cs, |s| - |l|, |s| - |l| + |r|);
    r
  }

  /** Python's strip is characterised exactly by `StrippedAt`: any span with
      that shape is the one `Strip` returns. */
  lemma StripUnique(s: string, cs: set<char>, i: int, j: int)
    requires StrippedAt(s, cs, i, j)
    ensures Strip(s, cs) == s[i..j]
  {
    var r := Strip(s, cs);
    var i0, j0 :| StrippedAt(s, cs, i0, j0) && r == s[i0..j0];
    if i < j {
      assert s[i] !in cs && s[j - 1] !in cs;
    }
    if i0 < j0 {
      assert s[i0] !in cs && s[j0 - 1] !in cs;
    }
  }

  /** A string whose ends lie outside `cs` is left alone by `strip`. */
  lemma StripUntouched(s: string, cs: set<char>)
    requires s == [] || (s[0] !in cs && s[|s| - 1] !in cs)
    ensures Strip(s, cs) == s
  {
    assert s[0..|s|] == s;
    StripUnique(s, cs, 0, |s|);
  }

  /** Stripping `c` from `c + s + c` gives back `s` when `s` neither starts nor ends with `c`. */
  lemma StripWrapped(s: string, c: char)
    requires s == [] || (s[0] != c && s[|s| - 1] != c)
    ensures Strip([c] + s + [c], {c}) == s
  {
    var w := [c] + s + [c];
    assert w[1..|s| + 1] == s;
    StripUnique(w, {c}, 1, |s| + 1);
  }

  // ---------------------------------------------------------------------------
  // lower
  // ---------------------------------------------------------------------------

  /** `c.lower()` on ASCII. */
  function LowerChar(c: char): char {
    if 'A' <= c <= 'Z' then (c as int + 32) as char else c
  }

  /** `s.lower()` on ASCII. */
  function Lower(s: string): string {
    seq(|s|, i requires 0 <= i < |s| => LowerChar(s[i]))
  }

  // ---------------------------------------------------------------------------
  // split
  // ---------------------------------------------------------------------------

  /** Number of occurrences of `c` in `s` (`s.count(c)`). */
  function Count(s: string, c: char): nat {
    if |s| == 0 then 0 else (if s[0] == c then 1 else 0) + Count(s[1..], c)
  }

  lemma {:induction false} CountConcat(a: string, b: string, c: char)
    ensures Count(a + b, c) == Count(a, c) + Count(b, c)
  {
    if |a| == 0 {
      assert a + b == b;
    } else {
      assert (a + b)[1..] == a[1..] + b;
      CountConcat(a[1..], b, c);
    }
  }

  lemma {:induction false} CountAbsent(s: string, c: char)
    requires c !in s
    ensures Count(s, c) == 0
  {
    if |s| > 0 {
      assert s[0] != c;
      assert forall k :: 0 <= k < |s| - 1 ==> s[1..][k] == s[k + 1];
      CountAbsent(s[1..], c);
    }
  }

  /** `s.split(c, 1)`: the text before the first `c` and the text after it,
      or `None` when `c` does not occur. */
  function SplitFirst(s: string, c: char): (r: Option<(string, string)>)
    ensures r.None? <==> c !in s
    ensures r.Some? ==> r.value.0 + [c] + r.value.1 == s && c !in r.value.0
  {
    if |s| == 0 then None
    else if s[0] == c then Some(([], s[1..]))
    else
      match SplitFirst(s[1..], c)
      case None => None
      case Some((a, b)) =>
        assert [s[0]] + a + [c] + b == [s[0]] + (a + [c] + b);
        Some(([s[0]] + a, b))
  }

  /** The split at the first `c` is the only way to write `s` as `a + c + b`
      with no `c` in `a`. */
  lemma {:induction false} SplitFirstUnique(a: string, b: string, c: char)
    requires c !in a
    ensures SplitFirst(a + [c] + b, c) == Some((a, b))
  {
    var s := a + [c] + b;
    if |a| == 0 {
      assert s == [c] + b;
      assert s[1..] == b;
    } else {
      assert s[0] == a[0] && a[0] != c;
      assert s[1..] == a[1..] + [c] + b;
      SplitFirstUnique(a[1..], b, c);
      assert [s[0]] + a[1..] == a;
    }
  }

  /** Inverse of `SplitAll`: the pieces glued back with `c` between them. */
  function Join(parts: seq<string>, c: char): string
    requires |parts| > 0
  {
    if |parts| == 1 then parts[0] else parts[0] + [c] + Join(parts[1..], c)
  }

  /** The first character of a join comes from the first piece, or is the
      separator when that piece is empty. */
  lemma {:induction false} JoinFirst(parts: seq<string>, c: char)
    requires |parts| > 0
    ensures Join(parts, c) == [] || Join(parts, c)[0] == (if parts[0] == [] then c else parts[0][0])
  {
  }

  /** The last character of a join comes from the last piece, or is the
      separator when that piece is empty. */
  lemma {:induction false} JoinLast(parts: seq<string>, c: char)
    requires |parts| > 0
    ensures var j := Join(parts, c);
            var p := parts[|parts| - 1];
            j == [] || j[|j| - 1] == (if p == [] then c else p[|p| - 1])
    decreases |parts|
  {
    if |parts| > 1 {
      JoinLast(parts[1..], c);
      assert parts[1..][|parts| - 2] == parts[|parts| - 1];
    }
  }

  /** `s.split(c)` for a one-character separator. */
  function SplitAll(s: string, c: char): (r: seq<string>)
    ensures |r| == Count(s, c) + 1
    ensures forall k :: 0 <= k < |r| ==> c !in r[k]
    ensures Join(r, c) == s
    decreases |s|
  {
    match SplitFirst(s, c)
    case None =>
      CountAbsent(s, c);
      [s]
    case Some((a, b)) =>
      var rest := SplitAll(b, c);
      CountConcat(a + [c], b, c);
      CountConcat(a, [c], c);
      CountAbsent(a, c);
      assert ([a] + rest)[1..] == rest;
      [a] + rest
  }

  /** Splitting the join of `c`-free pieces gives the pieces back. */
  lemma {:induction false} SplitAllJoin(parts: seq<string>, c: char)
    requires |parts| > 0
    requires forall k :: 0 <= k < |parts| ==> c !in parts[k]
    ensures SplitAll(Join(parts, c), c) == parts
    decreases |parts|
  {
    if |parts| == 1 {
      assert c !in parts[0];
    } else {
      var rest := Join(parts[1..], c);
      assert c !in parts[0];
      SplitFirstUnique(parts[0], rest, c);
      SplitAllJoin(parts[1..], c);
      assert [parts[0]] + parts[1..] == parts;
    }
  }

  // ---------------------------------------------------------------------------
  // first occurrence of a substring
  // ---------------------------------------------------------------------------

  predicate OccursAt(s: string, pat: string, i: int) {
    0 <= i && i + |pat| <= |s| && s[i..i + |pat|] == pat
  }

  /** The first index at or after `from` where `pat` occurs in `s`. */
  function FindFrom(s: string, pat: string, from: nat): (r: Option<nat>)
    ensures r.Some? ==> from <= r.value && OccursAt(s, pat, r.value)
    ensures forall k :: from <= k && (r.None? || k < r.value) ==> !OccursAt(s, pat, k)
    decreases |s| - from
  {
    if from + |pat| > |s| then None
    else if s[from..from + |pat|] == pat then Some(from)
    else FindFrom(s, pat, from + 1)
  }

  /** `s.find(pat)`, with `None` for Python's `-1`. */
  function Find(s: string, pat: string): (r: Option<nat>)
    ensures r.Some? ==> OccursAt(s, pat, r.value)
    ensures forall k :: 0 <= k && (r.None? || k < r.value) ==> !OccursAt(s, pat, k)
  {
    FindFrom(s, pat, 0)
  }

  /** `pat` occurs at `i` and its first character does not occur before `i`,
      so `i` is the first occurrence. */
  lemma FindFirst(s: string, pat: string, i: nat)
    requires |pat| > 0 && OccursAt(s, pat, i) && pat[0] !in s[..i]
    ensures Find(s, pat) == Some(i)
  {
    forall k | 0 <= k < i
      ensures !OccursAt(s, pat, k)
    {
      assert s[k] == s[..i][k];
      if k + |pat| <= |s| {
        assert s[k..k + |pat|][0] == s[k];
      }
    }
  }

  /** `s.split(pat, 1)[1]`: the text after the first occurrence of `pat`;
      `None` where Python raises `IndexError` because `pat` does not occur. */
  function After(s: string, pat: string): (r: Option<string>)
    requires |pat| > 0
    ensures r.None? <==> forall k :: 0 <= k ==> !OccursAt(s, pat, k)
    ensures r.Some? ==> exists i :: OccursAt(s, pat, i) && r.value == s[i + |pat|..] &&
                                    forall k :: 0 <= k < i ==> !OccursAt(s, pat, k)
  {
    match Find(s, pat)
    case None => None
    case Some(i) => Some(s[i + |pat|..])
  }

  // ---------------------------------------------------------------------------
  // digits and int()
  // ---------------------------------------------------------------------------

  predicate IsDigit(c: char) {
    '0' <= c <= '9'
  }

  /** `s.isdigit()` on ASCII: non-empty and every character a digit. */
  predicate IsDigits(s: string) {
    |s| > 0 && forall k :: 0 <= k < |s| ==> IsDigit(s[k])
  }

  /** The base-10 value of a run of digits. */
  function DigitsValue(s: string): nat
    requires forall k :: 0 <= k < |s| ==> IsDigit(s[k])
  {
    if |s| == 0 then 0
    else
      assert IsDigit(s[|s| - 1]);
      DigitsValue(s[..|s| - 1]) * 10 + (s[|s| - 1] as int - '0' as int)
  }

  function DigitChar(d: nat): char
    requires d < 10
  {
    ('0' as int + d) as char
  }

  /** `str(n)` for a natural number: no leading zeros. */
  function NatToString(n: nat): (r: string)
    decreases n
  {
    if n < 10 then [DigitChar(n)] else NatToString(n / 10) + [DigitChar(n % 10)]
  }

  /** `str(n)` for any integer. */
  function IntToString(n: int): string {
    if n < 0 then "-" + NatToString(-n) else NatToString(n)
  }

  /** Decimal rendering and digit reading are inverse. */
  lemma {:induction false} NatToStringRoundTrip(n: nat)
    ensures IsDigits(NatToString(n))
    ensures DigitsValue(NatToString(n)) == n
    decreases n
  {
    var s := NatToString(n);
    if n >= 10 {
      NatToStringRoundTrip(n / 10);
      var p := NatToString(n / 10);
      assert s == p + [DigitChar(n % 10)];
      assert s[..|s| - 1] == p;
    }
  }

  /** `int(s)` for the grammar an optional `+`/`-` followed by one or more
      ASCII digits; `None` where Python raises `ValueError`. */
  function ParseInt(s: string): (r: Option<int>)
    ensures r.Some? <==> IsDigits(s) || (|s| > 1 && s[0] in {'+', '-'} && IsDigits(s[1..]))
  {
    if |s| > 0 && s[0] in {'+', '-'} then
      if IsDigits(s[1..]) then
        var m: int := DigitsValue(s[1..]);
        Some(if s[0] == '-' then -m else m)
      else None
    else if IsDigits(s) then Some(DigitsValue(s))
    else None
  }

  /** `int(str(n)) == n`. */
  lemma ParseIntRoundTrip(n: int)
    ensures ParseInt(IntToString(n)) == Some(n)
  {
    if n < 0 {
      NatToStringRoundTrip(-n);
      var s := IntToString(n);
      assert s[1..] == NatToString(-n);
    } else {
      NatToStringRoundTrip(n);
      var s := NatToString(n);
      assert s[0] != '+' && s[0] != '-' by { assert IsDigit(s[0]); }
    }
  }
}
