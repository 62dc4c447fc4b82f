/** Shared vocabulary: outcomes, characters, Python's `sep.join` and
    `str.split(sep)`, powers of two and big-endian byte strings. */
module Util {

  datatype Option<+T> = None | Some(value: T)

  /** The exceptions the converter can raise before it writes a file. */
  datatype Failure =
    | NoCoordsFound          // RuntimeError: no token names the "P" attribute
    | UnboundIndex(name: string) // NameError: a block boundary was never assigned
    | StripOnEmpty           // IndexError: `s[-1]` on a string with no digit left
    | BadFloat               // ValueError: `float()` of a malformed field
    | StructError            // struct.error: a value that does not fit the format

  datatype Result<+R> = Success(value: R) | Err(error: Failure) {
    predicate IsFailure() { Err? }
    function PropagateFailure<U>(): Result<U> requires Err? { Err(error) }
    function Extract(): R requires Success? { value }
  }

  type Byte = b: int | 0 <= b < 256

  /** `str.isdigit()` on one character of a byte string. */
  predicate IsDigit(c: char) { '0' <= c <= '9' }

  /** The characters `str.split()` with no argument splits on. */
  predicate IsSpace(c: char) { c == ' ' || 9 <= c as int <= 13 }

  /** `pat in s` / `re.search(pat, s)` for a literal pattern. */
  predicate Contains(s: string, pat: string)
  {
    |pat| <= |s| && (s[..|pat|] == pat || Contains(s[1..], pat))
  }

  /** `sep.join(xs)` */
  function Join(xs: seq<string>, sep: char): string
  {
    if xs == [] then ""
    else if |xs| == 1 then xs[0]
    else xs[0] + [sep] + Join(xs[1..], sep)
  }

  /** `s.split(c)` for every c in `seps`: cut at each separator, keeping
      empty pieces; always at least one piece. */
  function Split(s: string, seps: set<char>): (r: seq<string>)
    ensures |r| >= 1
  {
    if s == [] then [""]
    else if s[0] in seps then [""] + Split(s[1..], seps)
    else var rest := Split(s[1..], seps); [[s[0]] + rest[0]] + rest[1..]
  }

  /** The separators of `s`, in order. */
  function Separators(s: string, seps: set<char>): seq<char>
  {
    if s == [] then [] else (if s[0] in seps then [s[0]] else []) + Separators(s[1..], seps)
  }

  /** Puts the pieces back together with the given separators between them. */
  function Interleave(pieces: seq<string>, between: seq<char>): string
    requires |pieces| == |between| + 1
  {
    if between == [] then pieces[0]
    else pieces[0] + [between[0]] + Interleave(pieces[1..], between[1..])
  }

  predicate NoneContains(xs: seq<string>, seps: set<char>)
  {
    forall i, j | 0 <= i < |xs| && 0 <= j < |xs[i]| :: xs[i][j] !in seps
  }

  /** Splitting loses nothing but the choice of separator: there is one
      piece more than there are separators, no piece holds a separator, and
      interleaving the pieces with the separators gives back the text. */
  lemma {:induction false} SplitInterleave(s: string, seps: set<char>)
    ensures |Split(s, seps)| == |Separators(s, seps)| + 1
    ensures NoneContains(Split(s, seps), seps)
    ensures Interleave(Split(s, seps), Separators(s, seps)) == s
  {
    if s != [] {
      SplitInterleave(s[1..], seps);
      if s[0] in seps {
        SplitInterleaveAtSep(s, seps);
      } else {
        SplitInterleaveAtChar(s, seps);
      }
    }
  }

  lemma {:induction false} SplitInterleaveAtSep(s: string, seps: set<char>)
    requires s != [] && s[0] in seps
    requires |Split(s[1..], seps)| == |Separators(s[1..], seps)| + 1
    requires NoneContains(Split(s[1..], seps), seps)
    requires Interleave(Split(s[1..], seps), Separators(s[1..], seps)) == s[1..]
    ensures |Split(s, seps)| == |Separators(s, seps)| + 1
    ensures NoneContains(Split(s, seps), seps)
    ensures Interleave(Split(s, seps), Separators(s, seps)) == s
  {
    var rest := Split(s[1..], seps);
    assert Split(s, seps) == [""] + rest;
    assert Split(s, seps)[1..] == rest;
    assert Separators(s, seps) == [s[0]] + Separators(s[1..], seps);
  }

  lemma {:induction false} SplitInterleaveAtChar(s: string, seps: set<char>)
    requires s != [] && s[0] !in seps
    requires |Split(s[1..], seps)| == |Separators(s[1..], seps)| + 1
    requires NoneContains(Split(s[1..], seps), seps)
    requires Interleave(Split(s[1..], seps), Separators(s[1..], seps)) == s[1..]
    ensures |Split(s, seps)| == |Separators(s, seps)| + 1
    ensures NoneContains(Split(s, seps), seps)
    ensures Interleave(Split(s, seps), Separators(s, seps)) == s
  {
    var rest := Split(s[1..], seps);
    var r := Split(s, seps);
    assert r == [[s[0]] + rest[0]] + rest[1..];
    assert Separators(s, seps) == Separators(s[1..], seps);
    ConsNoneContains(s[0], rest, seps);
    InterleaveCons(s[0], rest, Separators(s[1..], seps));
    assert [s[0]] + s[1..] == s;
  }

  lemma {:induction false} ConsNoneContains(c: char, rest: seq<string>, seps: set<char>)
    requires c !in seps && |rest| >= 1
    requires NoneContains(rest, seps)
    ensures NoneContains([[c] + rest[0]] + rest[1..], seps)
  {
    var r := [[c] + rest[0]] + rest[1..];
    forall i, j | 0 <= i < |r| && 0 <= j < |r[i]| ensures r[i][j] !in seps {
      if i == 0 {
        if j > 0 { assert r[0][j] == rest[0][j - 1]; }
      } else {
        assert r[i] == rest[i];
      }
    }
  }

  lemma {:induction false} InterleaveCons(c: char, pieces: seq<string>, between: seq<char>)
    requires |pieces| == |between| + 1
    ensures Interleave([[c] + pieces[0]] + pieces[1..], between) == [c] + Interleave(pieces, between)
  {
    var r := [[c] + pieces[0]] + pieces[1..];
    assert r[0] == [c] + pieces[0] && r[1..] == pieces[1..];
    if between != [] {
      assert Interleave(r, between) == r[0] + [between[0]] + Interleave(r[1..], between[1..]);
    }
  }

  lemma {:induction false} SplitAppend(a: string, c: char, b: string, seps: set<char>)
    requires c in seps
    requires forall j | 0 <= j < |a| :: a[j] !in seps
    ensures Split(a + [c] + b, seps) == [a] + Split(b, seps)
  {
    if a == [] {
      assert a + [c] + b == [c] + b;
      assert ([c] + b)[1..] == b;
    } else {
      SplitAppend(a[1..], c, b, seps);
      assert (a + [c] + b)[1..] == a[1..] + [c] + b;
      assert [a[0]] + a[1..] == a;
    }
  }

  lemma {:induction false} SplitNoSep(a: string, seps: set<char>)
    requires forall j | 0 <= j < |a| :: a[j] !in seps
    ensures Split(a, seps) == [a]
  {
    if a != [] {
      SplitNoSep(a[1..], seps);
      assert [a[0]] + a[1..] == a;
    }
  }

  /** `xs == sep.join(xs).split(sep)` when no piece holds the separator. */
  lemma {:induction false} SplitJoin(xs: seq<string>, c: char)
    requires |xs| >= 1
    requires NoneContains(xs, {c})
    ensures Split(Join(xs, c), {c}) == xs
  {
    if |xs| == 1 {
      SplitNoSep(xs[0], {c});
    } else {
      assert NoneContains(xs[1..], {c}) by {
        forall i, j | 0 <= i < |xs[1..]| && 0 <= j < |xs[1..][i]| ensures xs[1..][i][j] !in {c} {
          assert xs[1..][i] == xs[i + 1];
        }
      }
      SplitJoin(xs[1..], c);
      assert forall j | 0 <= j < |xs[0]| :: xs[0][j] !in {c} by {
        forall j | 0 <= j < |xs[0]| ensures xs[0][j] !in {c} { }
      }
      SplitAppend(xs[0], c, Join(xs[1..], c), {c});
    }
  }

  /** `sep.join(xs + ys)` for two non-empty lists. */
  lemma {:induction false} JoinAppend(xs: seq<string>, ys: seq<string>, c: char)
    requires |xs| >= 1 && |ys| >= 1
    ensures Join(xs + ys, c) == Join(xs, c) + [c] + Join(ys, c)
  {
    if |xs| == 1 {
      assert (xs + ys)[1..] == ys;
    } else {
      assert (xs + ys)[1..] == xs[1..] + ys;
      JoinAppend(xs[1..], ys, c);
    }
  }

  function Pow2(n: nat): (r: nat)
    ensures r >= 1
  {
    if n == 0 then 1 else 2 * Pow2(n - 1)
  }

  lemma {:induction false} Pow2Add(a: nat, b: nat)
    ensures Pow2(a + b) == Pow2(a) * Pow2(b)
  {
    if a > 0 {
      Pow2Add(a - 1, b);
    }
  }

  lemma {:induction false} Pow2Monotone(a: nat, b: nat)
    requires a <= b
    ensures Pow2(a) <= Pow2(b)
  {
    if a < b {
      Pow2Monotone(a, b - 1);
    }
  }

  function Pow256(n: nat): (r: nat)
    ensures r >= 1
  {
    if n == 0 then 1 else 256 * Pow256(n - 1)
  }

  /** The `n` bytes of `x`, most significant first. */
  function BigEndian(x: nat, n: nat): (r: seq<Byte>)
    ensures |r| == n
  {
    if n == 0 then [] else BigEndian(x / 256, n - 1) + [x % 256]
  }

  /** Reads bytes most significant first. */
  function FromBigEndian(bs: seq<Byte>): nat
  {
    if bs == [] then 0 else FromBigEndian(bs[..|bs| - 1]) * 256 + bs[|bs| - 1]
  }

  lemma {:induction false} BigEndianRoundTrip(x: nat, n: nat)
    requires x < Pow256(n)
    ensures FromBigEndian(BigEndian(x, n)) == x
  {
    if n > 0 {
      var r := BigEndian(x, n);
      assert r[..n - 1] == BigEndian(x / 256, n - 1);
      assert x / 256 < Pow256(n - 1) by {
        DivBound(x, 256, Pow256(n - 1));
      }
      BigEndianRoundTrip(x / 256, n - 1);
      assert FromBigEndian(r) == FromBigEndian(r[..n - 1]) * 256 + r[n - 1];
      assert (x / 256) * 256 + x % 256 == x;
    }
  }

  lemma {:induction false} DivBound(x: nat, d: nat, m: nat)
    requires d > 0 && x < d * m
    ensures x / d < m
  {
  }
}
