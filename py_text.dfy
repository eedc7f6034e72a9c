/** The Python built-ins that address_parser.py relies on, restricted to ASCII:
    str.lower, str.isalnum, str.strip, str.split(" "), " ".join, list.index,
    list.remove and the substring test `pat in s` (which also stands for
    re.search on a pattern without regular-expression metacharacters). */
module PyText {

  datatype Option<T> = None | Some(value: T)

  // ---------------------------------------------------------------------------
  // str.lower, str.isalnum, str.isspace (ASCII)
  // ---------------------------------------------------------------------------

  predicate IsUpperChar(c: char) { 'A' <= c <= 'Z' }

  function LowerChar(c: char): (d: char)
    ensures !IsUpperChar(d)
    ensures IsUpperChar(c) ==> d as int == c as int + 32
    ensures !IsUpperChar(c) ==> d == c
  {
    if IsUpperChar(c) then (c as int + 32) as char else c
  }

  /** `s.lower()`: every ASCII capital replaced by its small letter. */
  function Lower(s: string): (r: string)
    ensures |r| == |s|
    ensures forall i :: 0 <= i < |s| ==> r[i] == LowerChar(s[i])
  {
    seq(|s|, i requires 0 <= i < |s| => LowerChar(s[i]))
  }

  predicate HasNoUpper(s: string) { forall i :: 0 <= i < |s| ==> !IsUpperChar(s[i]) }

  predicate IsAlnumChar(c: char) { 'a' <= c <= 'z' || 'A' <= c <= 'Z' || '0' <= c <= '9' }

  /** `s.isalnum()`: false on the empty string. */
  predicate IsAlnum(s: string) { |s| > 0 && forall i :: 0 <= i < |s| ==> IsAlnumChar(s[i]) }

  /** The characters that Python 2's `str.strip()` and `str.isspace()`
      treat as whitespace in a byte string: tab, line feed, vertical tab,
      form feed, carriage return and the space. */
  predicate IsSpace(c: char) { 9 <= c as int <= 13 || c == ' ' }

  // ---------------------------------------------------------------------------
  // str.strip()
  // ---------------------------------------------------------------------------

  /** The number of whitespace characters `s` starts with. */
  function LeadingSpace(s: string): (n: nat)
    ensures n <= |s|
    ensures forall i :: 0 <= i < n ==> IsSpace(s[i])
    ensures n == |s| || !IsSpace(s[n])
    decreases |s|
  {
    if |s| > 0 && IsSpace(s[0]) then 1 + LeadingSpace(s[1..]) else 0
  }

  /** The number of whitespace characters `s` ends with. */
  function TrailingSpace(s: string): (n: nat)
    ensures n <= |s|
    ensures forall i :: |s| - n <= i < |s| ==> IsSpace(s[i])
    ensures n == |s| || !IsSpace(s[|s| - n - 1])
    decreases |s|
  {
    if |s| > 0 && IsSpace(s[|s| - 1]) then 1 + TrailingSpace(s[..|s| - 1]) else 0
  }

  /** `r` is `s[a..b]`, and only whitespace lies outside it. */
  predicate CutsSpace(s: string, r: string, a: int, b: int)
  {
    0 <= a <= b <= |s| && r == s[a..b] &&
    (forall i :: 0 <= i < a ==> IsSpace(s[i])) && (forall i :: b <= i < |s| ==> IsSpace(s[i]))
  }

  /** `s.strip()`: the infix of `s` left once the leading and the trailing
      whitespace are cut off. */
  function Strip(s: string): (r: string)
    ensures |r| <= |s|
    ensures r == [] || (!IsSpace(r[0]) && !IsSpace(r[|r| - 1]))
    ensures forall i :: 0 <= i < |r| ==> r[i] in s
    ensures exists a, b :: CutsSpace(s, r, a, b)
  {
    var a := LeadingSpace(s);
    var l := s[a..];
    StripCuts(s, a, TrailingSpace(l));
    l[..|l| - TrailingSpace(l)]
  }

  /** Cutting `a` leading and `t` trailing whitespace characters off `s`. */
  lemma StripCuts(s: string, a: nat, t: nat)
    requires a + t <= |s|
    requires forall i :: 0 <= i < a ==> IsSpace(s[i])
    requires forall j :: |s| - a - t <= j < |s| - a ==> IsSpace(s[a..][j])
    ensures CutsSpace(s, s[a..][..|s| - a - t], a, |s| - t)
  {
    var l := s[a..];
    var b := |s| - t;
    assert l[..|l| - t] == s[a..b];
    forall i | b <= i < |s|
      ensures IsSpace(s[i])
    {
      assert s[i] == l[i - a];
    }
  }

  // ---------------------------------------------------------------------------
  // str.split(sep) with an explicit one-character separator, and sep.join
  // ---------------------------------------------------------------------------

  /** `s.split(sep)` for a one-character `sep`: the pieces between the
      separators; two adjacent separators give an empty piece and the empty
      string splits into one empty piece. */
  function Split(s: string, sep: char): (r: seq<string>)
    ensures |r| >= 1
    ensures forall i :: 0 <= i < |r| ==> sep !in r[i]
    decreases |s|
  {
    if |s| == 0 then [""]
    else
      var rest := Split(s[1..], sep);
      if s[0] == sep then [""] + rest
      else [[s[0]] + rest[0]] + rest[1..]
  }

  /** `sep.join(ts)` for a one-character `sep`. */
  function Join(sep: char, ts: seq<string>): string
    decreases |ts|
  {
    if |ts| == 0 then ""
    else if |ts| == 1 then ts[0]
    else ts[0] + [sep] + Join(sep, ts[1..])
  }

  lemma {:induction false} JoinSplit(s: string, sep: char)
    ensures Join(sep, Split(s, sep)) == s
    decreases |s|
  {
    if |s| > 0 {
      var rest := Split(s[1..], sep);
      JoinSplit(s[1..], sep);
      if s[0] == sep {
        assert ([""] + rest)[1..] == rest;
      } else {
        var r := [[s[0]] + rest[0]] + rest[1..];
        if |rest| == 1 {
          assert r == [[s[0]] + rest[0]];
          assert [s[0]] + s[1..] == s;
        } else {
          assert r[1..] == rest[1..];
          assert Join(sep, rest) == rest[0] + [sep] + Join(sep, rest[1..]);
        }
      }
    }
  }

  /** Splitting `t + s` when `t` holds no separator glues `t` onto the
      first piece of `s`. */
  lemma {:induction false} SplitPrefix(t: string, s: string, sep: char)
    requires sep !in t
    ensures Split(t + s, sep) == [t + Split(s, sep)[0]] + Split(s, sep)[1..]
    decreases |t|
  {
    if |t| > 0 {
      assert (t + s)[1..] == t[1..] + s;
      SplitPrefix(t[1..], s, sep);
      assert [t[0]] + (t[1..] + Split(s, sep)[0]) == t + Split(s, sep)[0];
    } else {
      var p := Split(s, sep);
      assert t + s == s && t + p[0] == p[0];
      assert p == [p[0]] + p[1..];
    }
  }

  lemma {:induction false} SplitJoin(ts: seq<string>, sep: char)
    requires |ts| >= 1
    requires forall i :: 0 <= i < |ts| ==> sep !in ts[i]
    ensures Split(Join(sep, ts), sep) == ts
    decreases |ts|
  {
    if |ts| == 1 {
      SplitPrefix(ts[0], "", sep);
      assert ts[0] + "" == ts[0];
    } else {
      var j := Join(sep, ts[1..]);
      SplitJoin(ts[1..], sep);
      assert ts[0] + [sep] + j == ts[0] + ([sep] + j);
      SplitPrefix(ts[0], [sep] + j, sep);
      assert ([sep] + j)[1..] == j;
      assert Split([sep] + j, sep) == [""] + ts[1..];
      assert ts[0] + "" == ts[0];
    }
  }

  // ---------------------------------------------------------------------------
  // list.index and list.remove
  // ---------------------------------------------------------------------------

  /** `xs.index(x)`: the first position of `x`, or None where Python raises
      ValueError. */
  function IndexOf<T(==)>(xs: seq<T>, x: T): (r: Option<nat>)
    ensures r.None? <==> x !in xs
    ensures r.Some? ==> r.value < |xs| && xs[r.value] == x && x !in xs[..r.value]
    decreases |xs|
  {
    if |xs| == 0 then None
    else if xs[0] == x then Some(0)
    else
      match IndexOf(xs[1..], x)
      case None => None
      case Some(i) => assert xs[..i + 1] == [xs[0]] + xs[1..][..i]; Some(i + 1)
  }

  /** The first position of an element that does not occur earlier is
      its own. */
  lemma IndexOfAt<T>(xs: seq<T>, i: nat)
    requires i < |xs| && xs[i] !in xs[..i]
    ensures IndexOf(xs, xs[i]) == Some(i)
  {
  }

  /** `xs.remove(x)`: the list without the FIRST element equal to `x`, or
      None where Python raises ValueError. */
  function Remove<T(==)>(xs: seq<T>, x: T): (r: Option<seq<T>>)
    ensures r.None? <==> x !in xs
    ensures r.Some? ==> |r.value| == |xs| - 1
    ensures r.Some? ==> var i := IndexOf(xs, x).value; r.value == xs[..i] + xs[i + 1..]
  {
    match IndexOf(xs, x)
    case None => None
    case Some(i) => Some(xs[..i] + xs[i + 1..])
  }

  /** `list.remove` takes away one copy of `x` and keeps every other
      element. */
  lemma RemoveMultiset<T>(xs: seq<T>, x: T)
    requires x in xs
    ensures multiset(Remove(xs, x).value) == multiset(xs) - multiset{x}
  {
    var i := IndexOf(xs, x).value;
    assert xs == xs[..i] + [x] + xs[i + 1..];
  }

  // ---------------------------------------------------------------------------
  // `pat in s` and the start of `re.search(pat, s)` for a literal pattern
  // ---------------------------------------------------------------------------

  predicate OccursAt(s: string, pat: string, k: nat) {
    k + |pat| <= |s| && s[k..k + |pat|] == pat
  }

  function FindFrom(s: string, pat: string, k: nat): (r: Option<nat>)
    requires k <= |s|
    ensures r.Some? ==> k <= r.value && OccursAt(s, pat, r.value)
    ensures r.Some? ==> forall j :: k <= j < r.value ==> !OccursAt(s, pat, j)
    ensures r.None? ==> forall j :: k <= j <= |s| ==> !OccursAt(s, pat, j)
    decreases |s| - k
  {
    if OccursAt(s, pat, k) then Some(k)
    else if k == |s| then None
    else FindFrom(s, pat, k + 1)
  }

  /** The index of the first occurrence of `pat` in `s`: what `match.start()`
      gives after `re.search(pat, s)` when `pat` has no metacharacters. */
  function Find(s: string, pat: string): (r: Option<nat>)
    ensures r.Some? ==> OccursAt(s, pat, r.value)
    ensures r.Some? ==> forall j :: 0 <= j < r.value ==> !OccursAt(s, pat, j)
    ensures r.None? <==> forall j :: 0 <= j <= |s| ==> !OccursAt(s, pat, j)
  {
    FindFrom(s, pat, 0)
  }

  /** Python's `pat in s`. */
  predicate Contains(s: string, pat: string) { exists k :: 0 <= k <= |s| && OccursAt(s, pat, k) }

  /** `re.search` finds a match exactly when the pattern occurs. */
  lemma FindIffContains(s: string, pat: string)
    ensures Find(s, pat).Some? <==> Contains(s, pat)
  {
  }

  /** A prefix of `s` that ends before the first occurrence of `pat`
      holds no occurrence of `pat`. */
  lemma PrefixBeforeFirstOccurrence(s: string, pat: string, k: nat)
    requires |pat| > 0 && Find(s, pat) == Some(k)
    ensures !Contains(s[..k], pat)
  {
    var p := s[..k];
    forall j | 0 <= j <= k
      ensures !OccursAt(p, pat, j)
    {
      if j + |pat| <= k {
        assert p[j..j + |pat|] == s[j..j + |pat|];
        assert !OccursAt(s, pat, j);
      }
    }
  }
}
