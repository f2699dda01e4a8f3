/**
 * File naming in the album: decimal rendering of integers as Python's
 * format strings produce it, `str.rfind`, `os.path.basename`, and the
 * collision-free name resolver that `add_video` (video folder) and `do_crop`
 * (image folder) each run against the names already in their table.
 */
module Naming {

  // ---------------------------------------------------------------------
  // Decimal digits
  // ---------------------------------------------------------------------

  predicate IsDigit(c: char) { '0' <= c <= '9' }

  predicate AllDigits(s: string) { forall i :: 0 <= i < |s| ==> IsDigit(s[i]) }

  function DigitChar(d: nat): (c: char)
    requires d < 10
  {
    ('0' as int + d) as char
  }

  function DigitValue(c: char): nat
    requires IsDigit(c)
  {
    c as int - '0' as int
  }

  /** The decimal text of a natural number, as `f"{n}"` writes it. */
  function NatToString(n: nat): (s: string)
    ensures 1 <= |s| && AllDigits(s)
    ensures n >= 10 ==> |s| >= 2
    ensures s[0] == '0' ==> n == 0
    decreases n
  {
    if n < 10 then [DigitChar(n)] else NatToString(n / 10) + [DigitChar(n % 10)]
  }

  /** The number a string of decimal digits denotes; leading zeros allowed. */
  function DigitsValue(s: string): nat
    requires AllDigits(s)
  {
    if s == [] then 0 else 10 * DigitsValue(s[..|s| - 1]) + DigitValue(s[|s| - 1])
  }

  /** Reading back the decimal text of `n` gives `n`. */
  lemma {:induction false} NatToStringRoundTrip(n: nat)
    ensures DigitsValue(NatToString(n)) == n
    decreases n
  {
    var s := NatToString(n);
    if n >= 10 {
      NatToStringRoundTrip(n / 10);
      assert s[..|s| - 1] == NatToString(n / 10);
    }
  }

  /** Distinct numbers have distinct decimal texts. */
  lemma NatToStringInjective(a: nat, b: nat)
    requires NatToString(a) == NatToString(b)
    ensures a == b
  {
    NatToStringRoundTrip(a);
    NatToStringRoundTrip(b);
  }

  function Pow10(k: nat): (p: nat)
    ensures p >= 1
  {
    if k == 0 then 1 else 10 * Pow10(k - 1)
  }

  /** A number below 10^w needs at most w digits. */
  lemma {:induction false} NatToStringLength(n: nat, w: nat)
    requires 1 <= w && n < Pow10(w)
    ensures |NatToString(n)| <= w
    decreases n
  {
    if n >= 10 {
      assert w >= 2;
      NatToStringLength(n / 10, w - 1);
    }
  }

  /** The decimal text of an integer, with a leading '-' when negative (`f"{x:d}"`). */
  function IntToString(x: int): string
  {
    if x < 0 then "-" + NatToString(-x) else NatToString(x)
  }

  function Zeros(k: nat): (z: string)
    ensures |z| == k && AllDigits(z)
    ensures forall i :: 0 <= i < k ==> z[i] == '0'
  {
    seq(k, _ => '0')
  }

  /**
   * Python's `f"{x:0>w}"`: the decimal text of `x` filled on the left with
   * '0' up to width `w`. The fill goes in front of a minus sign as well,
   * since the alignment is explicit.
   */
  function PadField(x: int, width: nat): string
  {
    var s := IntToString(x);
    if |s| < width then Zeros(width - |s|) + s else s
  }

  lemma {:induction false} ZerosValue(k: nat)
    ensures DigitsValue(Zeros(k)) == 0
  {
    if k > 0 {
      assert Zeros(k)[..k - 1] == Zeros(k - 1);
      ZerosValue(k - 1);
    }
  }

  /** Leading zeros do not change the value of a digit string. */
  lemma {:induction false} LeadingZerosValue(k: nat, s: string)
    requires AllDigits(s)
    ensures AllDigits(Zeros(k) + s)
    ensures DigitsValue(Zeros(k) + s) == DigitsValue(s)
    decreases |s|
  {
    var t := Zeros(k) + s;
    if s == [] {
      assert t == Zeros(k);
      ZerosValue(k);
    } else {
      assert t[..|t| - 1] == Zeros(k) + s[..|s| - 1];
      LeadingZerosValue(k, s[..|s| - 1]);
    }
  }

  /**
   * A zero-padded field of a non-negative number is all digits, is at least
   * `width` long (exactly `width` when the number has at most `width`
   * digits), and reads back as the number.
   */
  lemma PadFieldRoundTrip(n: nat, width: nat)
    ensures AllDigits(PadField(n, width))
    ensures |PadField(n, width)| >= width
    ensures 1 <= width && n < Pow10(width) ==> |PadField(n, width)| == width
    ensures DigitsValue(PadField(n, width)) == n
  {
    var s := NatToString(n);
    NatToStringRoundTrip(n);
    if |s| < width {
      LeadingZerosValue(width - |s|, s);
    }
    if 1 <= width && n < Pow10(width) {
      NatToStringLength(n, width);
    }
  }

  // ---------------------------------------------------------------------
  // str.rfind and os.path.basename
  // ---------------------------------------------------------------------

  /** `s.rfind(c)`: the last position of `c` in `s`, or -1 when there is none. */
  function RFind(s: string, c: char): (k: int)
    ensures -1 <= k < |s|
    ensures k >= 0 ==> s[k] == c
    ensures forall j :: k < j < |s| ==> s[j] != c
  {
    if |s| == 0 then -1
    else if s[|s| - 1] == c then |s| - 1
    else RFind(s[..|s| - 1], c)
  }

  /** `os.path.basename(path)` on a POSIX path: what follows the last '/'. */
  function BaseName(path: string): (b: string)
    ensures '/' !in b
    ensures |b| <= |path| && b == path[|path| - |b|..]
    ensures |b| < |path| ==> path[|path| - |b| - 1] == '/'
  {
    path[RFind(path, '/') + 1..]
  }

  // ---------------------------------------------------------------------
  // Collision-free names
  // ---------------------------------------------------------------------

  /**
   * Where the "(n)" suffix goes: in front of the last '.'. When the name has
   * no '.', `rfind` returns -1 and the slices `name[:-1]` and `name[-1:]` put
   * the suffix in front of the last character instead.
   */
  function SplitPoint(name: string): (p: nat)
    ensures p <= |name|
  {
    var k := RFind(name, '.');
    if k >= 0 then k else if |name| > 0 then |name| - 1 else 0
  }

  /** The n-th alternative to `name`: `name[:i] + f"({n})" + name[i:]`. */
  function Candidate(name: string, n: nat): string
  {
    var p := SplitPoint(name);
    name[..p] + "(" + NatToString(n) + ")" + name[p..]
  }

  /** Different suffix numbers give different candidates. */
  lemma CandidateInjective(name: string, m: nat, n: nat)
    requires Candidate(name, m) == Candidate(name, n)
    ensures m == n
  {
    var p := SplitPoint(name);
    var sm, sn := NatToString(m), NatToString(n);
    var cm, cn := Candidate(name, m), Candidate(name, n);
    assert |sm| == |sn|;
    assert cm[p + 1..p + 1 + |sm|] == sm;
    assert cn[p + 1..p + 1 + |sn|] == sn;
    NatToStringInjective(m, n);
  }

  /** The candidates numbered 1 .. n-1. */
  ghost function Tried(name: string, n: nat): set<string>
  {
    set m | 1 <= m < n :: Candidate(name, m)
  }

  lemma TriedNext(name: string, n: nat)
    requires 1 <= n
    ensures Tried(name, n + 1) == Tried(name, n) + {Candidate(name, n)}
    ensures Candidate(name, n) !in Tried(name, n)
  {
    if Candidate(name, n) in Tried(name, n) {
      var m :| 1 <= m < n && Candidate(name, m) == Candidate(name, n);
      CandidateInjective(name, m, n);
    }
  }

  /**
   * The least suffix number, from `n` on, whose candidate is not taken. It
   * exists because the taken set is finite and candidates for distinct
   * numbers are distinct.
   */
  function FreeSuffix(name: string, taken: set<string>, n: nat): (m: nat)
    requires 1 <= n && Tried(name, n) <= taken
    ensures n <= m && Candidate(name, m) !in taken
    ensures forall j :: n <= j < m ==> Candidate(name, j) in taken
    decreases taken - Tried(name, n)
  {
    if Candidate(name, n) !in taken then n
    else
      TriedNext(name, n);
      FreeSuffix(name, taken, n + 1)
  }

  /** The name the resolver settles on for `name` against the `taken` names. */
  function Resolve(name: string, taken: set<string>): (r: string)
    ensures r !in taken
    ensures name !in taken ==> r == name
  {
    if name !in taken then name else Candidate(name, FreeSuffix(name, taken, 1))
  }

  /**
   * A taken name resolves to its least-numbered candidate that is free:
   * if candidate `n` is free and candidates 1 .. n-1 are all taken, the
   * resolver returns candidate `n`.
   */
  lemma ResolveIsLeastFree(name: string, taken: set<string>, n: nat)
    requires name in taken && 1 <= n
    requires Candidate(name, n) !in taken
    requires forall j :: 1 <= j < n ==> Candidate(name, j) in taken
    ensures Resolve(name, taken) == Candidate(name, n)
  {
    var m := FreeSuffix(name, taken, 1);
    assert Candidate(name, m) !in taken;
    assert n < m ==> Candidate(name, n) in taken;
  }

  /**
   * The search loop of `add_video` and `do_crop`: try `name`, then its
   * candidates 1, 2, ... until one is not taken.
   */
  method ResolveName(name: string, taken: set<string>) returns (r: string)
    ensures r == Resolve(name, taken)
  {
    r := name;
    var n: nat := 1;
    while r in taken
      invariant 1 <= n
      invariant Tried(name, n - 1) <= taken
      invariant r == if n == 1 then name else Candidate(name, n - 1)
      invariant n > 1 ==> name in taken
      decreases taken - Tried(name, n - 1), if n == 1 then 1 else 0
    {
      if n > 1 {
        TriedNext(name, n - 1);
      }
      r := Candidate(name, n);
      n := n + 1;
    }
    if n > 1 {
      forall j | 1 <= j < n - 1
        ensures Candidate(name, j) in taken
      {
        assert Candidate(name, j) in Tried(name, n - 1);
      }
      ResolveIsLeastFree(name, taken, n - 1);
    }
  }

  /** With "a.jpg" and "a(1).jpg" taken, "a.jpg" resolves to "a(2).jpg". */
  lemma ResolveExampleWithExtension()
    ensures Resolve("a.jpg", {"a.jpg", "a(1).jpg"}) == "a(2).jpg"
  {
    assert RFind("a.jpg", '.') == 1 by {
      assert "a.jpg"[1] == '.';
    }
    assert NatToString(1) == "1" && NatToString(2) == "2";
    assert Candidate("a.jpg", 1) == "a(1).jpg";
    assert Candidate("a.jpg", 2) == "a(2).jpg";
    ResolveIsLeastFree("a.jpg", {"a.jpg", "a(1).jpg"}, 2);
  }

  /** A name without '.' gets its suffix in front of its last character. */
  lemma ResolveExampleWithoutDot()
    ensures Resolve("abc", {"abc"}) == "ab(1)c"
  {
    assert RFind("abc", '.') == -1;
    assert NatToString(1) == "1";
    assert Candidate("abc", 1) == "ab(1)c";
    ResolveIsLeastFree("abc", {"abc"}, 1);
  }
}
