/** Output names: the frame increment each worker computes and the cache
    file name built from it (Barnett-PointConverter.py, lines 268 and 305). */
module Naming {

  /** `250 * (startframe + countfile)`: the frame number, in Maya ticks, of
      the file at index `countfile`. */
  function Increment(startframe: int, countfile: int): int
  {
    250 * (startframe + countfile)
  }

  /** Different file indices give different increments. */
  lemma {:induction false} IncrementInjective(startframe: int, i: int, j: int)
    requires Increment(startframe, i) == Increment(startframe, j)
    ensures i == j
  {
  }

  function DigitChar(d: nat): char
    requires d < 10
  {
    (d + '0' as int) as char
  }

  /** `str(n)` for a natural number: decimal digits, no leading zero. */
  function NatToString(n: nat): (r: string)
    ensures |r| >= 1
    ensures forall i | 0 <= i < |r| :: '0' <= r[i] <= '9'
    ensures |r| > 1 ==> r[0] != '0'
  {
    if n < 10 then [DigitChar(n)] else NatToString(n / 10) + [DigitChar(n % 10)]
  }

  /** `str(i)` for any integer: a minus sign before the digits of a
      negative number. */
  function IntToString(i: int): string
  {
    if i < 0 then "-" + NatToString(-i) else NatToString(i)
  }

  predicate AllDigits(s: string)
  {
    forall i | 0 <= i < |s| :: '0' <= s[i] <= '9'
  }

  /** Reads decimal digits back. */
  function DecimalValue(s: string): nat
    requires forall i | 0 <= i < |s| :: '0' <= s[i] <= '9'
  {
    if s == [] then 0 else 10 * DecimalValue(s[..|s| - 1]) + (s[|s| - 1] as int - '0' as int)
  }

  /** Reads `str(i)` back. */
  function ParseInt(s: string): int
  {
    if s != [] && s[0] == '-' && AllDigits(s[1..]) then -(DecimalValue(s[1..]) as int)
    else if AllDigits(s) then DecimalValue(s)
    else 0
  }

  lemma {:induction false} NatToStringRoundTrip(n: nat)
    ensures DecimalValue(NatToString(n)) == n
  {
    if n >= 10 {
      var r := NatToString(n);
      assert r[..|r| - 1] == NatToString(n / 10);
      NatToStringRoundTrip(n / 10);
    }
  }

  /** `str` loses nothing: the integer can be read back from its text. */
  lemma {:induction false} IntToStringRoundTrip(i: int)
    ensures ParseInt(IntToString(i)) == i
  {
    var r := IntToString(i);
    if i < 0 {
      assert r[1..] == NatToString(-i);
      assert AllDigits(r[1..]);
      NatToStringRoundTrip(-i);
    } else {
      assert AllDigits(r);
      assert r[0] != '-';
      NatToStringRoundTrip(i);
    }
  }

  /** Line 268: `particlesName + '.' + str(pdcIncrements) + ".pdc"`. */
  function FileName(particlesName: string, pdcIncrements: int): string
  {
    particlesName + "." + IntToString(pdcIncrements) + ".pdc"
  }

  /** Line 269: the cache goes into the `Data` folder of the output
      directory, with the Windows separator. */
  function OutputPath(outputDirectory: string, fileName: string): string
  {
    outputDirectory + "\\Data\\" + fileName
  }

  /** The full path of a cache file as one string. This only unfolds
      `OutputPath` and `FileName`, so that callers can state the path as
      text. */
  lemma {:induction false} OutputPathShape(outputDirectory: string, particlesName: string, pdcIncrements: int)
    ensures OutputPath(outputDirectory, FileName(particlesName, pdcIncrements))
      == outputDirectory + "\\Data\\" + particlesName + "." + IntToString(pdcIncrements) + ".pdc"
  {
  }

  /** Under one particle name, different increments give different file
      names, so no two input files of one run share an output file. */
  lemma {:induction false} FileNameInjective(particlesName: string, a: int, b: int)
    requires FileName(particlesName, a) == FileName(particlesName, b)
    ensures a == b
  {
    var fa, fb := FileName(particlesName, a), FileName(particlesName, b);
    var k := |particlesName| + 1;
    assert IntToString(a) == fa[k..|fa| - 4];
    assert IntToString(b) == fb[k..|fb| - 4];
    IntToStringRoundTrip(a);
    IntToStringRoundTrip(b);
  }

  /** The file of input index `i` is named after frame `startframe + i`,
      and distinct indices never collide. */
  lemma {:induction false} OutputNamesDistinct(particlesName: string, startframe: int, i: int, j: int)
    requires i != j
    ensures FileName(particlesName, Increment(startframe, i)) != FileName(particlesName, Increment(startframe, j))
  {
    if FileName(particlesName, Increment(startframe, i)) == FileName(particlesName, Increment(startframe, j)) {
      FileNameInjective(particlesName, Increment(startframe, i), Increment(startframe, j));
      IncrementInjective(startframe, i, j);
    }
  }
}
