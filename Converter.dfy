/** `convertPcToPdc`: one Houdini ASCII point cache in, one Maya particle
    disk cache out (Barnett-PointConverter.py, lines 124-279). Reading and
    writing files, the timing prints and the warning are left to the
    caller; the text read and the bytes to write are values here. */
module Converter {
  import opened Util
  import opened Float64
  import opened Scan
  import opened Extract
  import opened Pdc
  import opened Naming

  /** What one conversion produces: where the cache goes, its bytes, and
      whether the ids were made up (the `noIds` flag behind the warning). */
  datatype Output = Output(path: string, bytes: seq<Byte>, noIds: bool)

  /** The tokens of the position block, `content[index3 + 1:index4]`. */
  function CoordTokens(content: seq<string>, b: Bounds): (r: seq<string>)
    requires b == ScanSpec(content) && b.coordsEnd.Some?
    ensures |r| + 1 == b.coordsEnd.value - b.coordsStart.value
    ensures forall i | 0 <= i < |r| :: !HasQuote(r[i])
  {
    BoundsOrdered(content);
    ScanSpecFlags(content);
    PositionBlockBounds(content);
    content[b.coordsStart.value + 1..b.coordsEnd.value]
  }

  /** The tokens of the id block, `content[index5:index6]`. */
  function IdTokens(content: seq<string>, b: Bounds): (r: seq<string>)
    requires b == ScanSpec(content) && b.idEnd.Some?
    ensures |r| == b.idEnd.value - b.idStart.value
    ensures |r| > 0 && IsBlank(r[0])
    ensures forall i | 1 <= i < |r| :: !HasQuote(r[i])
  {
    BoundsOrdered(content);
    ScanSpecFlags(content);
    IdBlockBounds(content);
    content[b.idStart.value..b.idEnd.value]
  }

  /** Packs and names the cache. */
  function Finish(coords: seq<Bits64>, ids: seq<Bits64>, noIds: bool,
                  particlesName: string, pdcIncrements: int, outputDirectory: string): Result<Output>
  {
    var bytes :- Pack(coords, ids);
    Success(Output(OutputPath(outputDirectory, FileName(particlesName, pdcIncrements)), bytes, noIds))
  }

  /** The whole conversion, with the exception each failing input raises. */
  function Convert(parse: string -> Option<Bits64>, text: string, particlesName: string,
                   pdcIncrements: int, outputDirectory: string): Result<Output>
  {
    var content := Tokenize(text);
    var b := ScanSpec(content);
    if !b.hasP then Err(NoCoordsFound)
    else if b.coordsStart.None? then Err(UnboundIndex("index3"))
    else if b.coordsEnd.None? then Err(UnboundIndex("index4"))
    else
      var coords :- Positions(parse, CoordTokens(content, b));
      var n := |coords| / 3;
      if !b.hasId then
        // float(i) never fails; only the packing can reject the count.
        if n > MaxInt32 then Err(StructError)
        else Finish(coords, SynthIds(n), true, particlesName, pdcIncrements, outputDirectory)
      else if b.idStart.None? then Err(UnboundIndex("index5"))
      else if b.idEnd.None? then Err(UnboundIndex("index6"))
      else
        var ids :- Ids(parse, IdTokens(content, b));
        Finish(coords, ids, false, particlesName, pdcIncrements, outputDirectory)
  }

  /** The conversion step by step, as the source runs it: the scan loop,
      then the two strip loops around the pure extraction steps. */
  method ConvertPcToPdc(parse: string -> Option<Bits64>, text: string, particlesName: string,
                        pdcIncrements: int, outputDirectory: string) returns (r: Result<Output>)
    ensures r == Convert(parse, text, particlesName, pdcIncrements, outputDirectory)
  {
    var content := Tokenize(text);
    var b := ScanTokens(content);
    if !b.hasP {
      return Err(NoCoordsFound);
    }
    if b.coordsStart.None? {
      return Err(UnboundIndex("index3"));
    }
    if b.coordsEnd.None? {
      return Err(UnboundIndex("index4"));
    }
    var tempString := StripTrailingNonDigits(Join(CoordTokens(content, b), ','));
    if tempString.Err? {
      return Err(tempString.error);
    }
    var coords := ParseAll(parse, Outputs(PaddedFields(tempString.value)));
    if coords.Err? {
      return Err(coords.error);
    }
    var n := |coords.value| / 3;
    if !b.hasId {
      if n > MaxInt32 {
        return Err(StructError);
      }
      r := Finish(coords.value, SynthIds(n), true, particlesName, pdcIncrements, outputDirectory);
      return;
    }
    if b.idStart.None? {
      return Err(UnboundIndex("index5"));
    }
    if b.idEnd.None? {
      return Err(UnboundIndex("index6"));
    }
    var tempString2 := StripTrailingNonDigits(Join(IdTokens(content, b), ','));
    if tempString2.Err? {
      return Err(tempString2.error);
    }
    var ids := ParseAll(parse, TrimAll(Split(tempString2.value[1..], {','})));
    if ids.Err? {
      return Err(ids.error);
    }
    r := Finish(coords.value, ids.value, false, particlesName, pdcIncrements, outputDirectory);
  }

  /** RuntimeError is raised exactly when no token names the "P"
      attribute; every other failure is a different exception. */
  lemma {:induction false} NoCoordsIffRuntimeError(parse: string -> Option<Bits64>, text: string,
                                                   particlesName: string, pdcIncrements: int, outputDirectory: string)
    ensures var content := Tokenize(text);
      Convert(parse, text, particlesName, pdcIncrements, outputDirectory) == Err(NoCoordsFound) <==>
      forall j | 0 <= j < |content| :: !NamesP(content[j])
  {
    var content := Tokenize(text);
    var b := ScanSpec(content);
    ScanSpecFlags(content);
    if b.hasP && b.coordsEnd.Some? {
      PositionsSpec(parse, CoordTokens(content, b));
      var coords := Positions(parse, CoordTokens(content, b));
      if coords.Success? && b.hasId && b.idEnd.Some? {
        IdsSpec(parse, IdTokens(content, b));
        var ids := Ids(parse, IdTokens(content, b));
        if ids.Success? {
          PackGuard(coords.value, ids.value);
        }
      } else if coords.Success? && !b.hasId && |coords.value| / 3 <= MaxInt32 {
        PackGuard(coords.value, SynthIds(|coords.value| / 3));
      }
    }
  }

  /** What a successful `Finish` writes: a cache a reader decodes into
      exactly the given coordinates and ids, of `62 + 24*N + 8*len(ids)`
      bytes for `N` particles, at the named path. */
  lemma {:induction false} FinishSpec(coords: seq<Bits64>, ids: seq<Bits64>, noIds: bool,
                                      particlesName: string, pdcIncrements: int, outputDirectory: string)
    requires Finish(coords, ids, noIds, particlesName, pdcIncrements, outputDirectory).Success?
    ensures var out := Finish(coords, ids, noIds, particlesName, pdcIncrements, outputDirectory).value;
      Unpack(out.bytes) == Some(Cache(|coords| / 3, coords, ids)) &&
      |coords| == 3 * (|coords| / 3) &&
      |out.bytes| == 62 + 24 * (|coords| / 3) + 8 * |ids| &&
      out.path == OutputPath(outputDirectory, FileName(particlesName, pdcIncrements)) &&
      out.noIds == noIds
  {
    var bytes := Pack(coords, ids).value;
    assert Finish(coords, ids, noIds, particlesName, pdcIncrements, outputDirectory).value
      == Output(OutputPath(outputDirectory, FileName(particlesName, pdcIncrements)), bytes, noIds);
    PackGuard(coords, ids);
    PackLength(coords, ids);
    PackRoundTrip(coords, ids);
  }

  /** A successful conversion writes, under `<name>.<increment>.pdc` in the
      Data folder, a cache a reader decodes into the scanned coordinates and
      ids: `62 + 24*N + 8*len(ids)` bytes for `N` particles. Without an
      "id" token the ids are exactly 0.0 ... N-1, one per particle, and the
      `noIds` flag is set. */
  lemma {:induction false} ConvertSuccess(parse: string -> Option<Bits64>, text: string,
                                          particlesName: string, pdcIncrements: int, outputDirectory: string)
    requires Convert(parse, text, particlesName, pdcIncrements, outputDirectory).Success?
    ensures var content := Tokenize(text);
      var b := ScanSpec(content);
      var out := Convert(parse, text, particlesName, pdcIncrements, outputDirectory).value;
      var cache := Unpack(out.bytes);
      b.hasP && b.coordsEnd.Some? &&
      Positions(parse, CoordTokens(content, b)).Success? &&
      cache.Some? &&
      cache.value.positions == Positions(parse, CoordTokens(content, b)).value &&
      |cache.value.positions| == 3 * cache.value.particles &&
      |out.bytes| == 62 + 24 * cache.value.particles + 8 * |cache.value.ids| &&
      out.path == outputDirectory + "\\Data\\" + particlesName + "." + IntToString(pdcIncrements) + ".pdc" &&
      (out.noIds <==> !b.hasId) &&
      (b.hasId ==> b.idEnd.Some? && Ids(parse, IdTokens(content, b)) == Success(cache.value.ids)) &&
      (!b.hasId ==> (|cache.value.ids| == cache.value.particles &&
         forall i | 0 <= i < cache.value.particles :: DenotesInteger(cache.value.ids[i], i)))
  {
    var content := Tokenize(text);
    var b := ScanSpec(content);
    var coords := Positions(parse, CoordTokens(content, b)).value;
    var n := |coords| / 3;
    OutputPathShape(outputDirectory, particlesName, pdcIncrements);
    if b.hasId {
      var ids := Ids(parse, IdTokens(content, b)).value;
      assert Convert(parse, text, particlesName, pdcIncrements, outputDirectory)
        == Finish(coords, ids, false, particlesName, pdcIncrements, outputDirectory);
      FinishSpec(coords, ids, false, particlesName, pdcIncrements, outputDirectory);
    } else {
      assert Convert(parse, text, particlesName, pdcIncrements, outputDirectory)
        == Finish(coords, SynthIds(n), true, particlesName, pdcIncrements, outputDirectory);
      FinishSpec(coords, SynthIds(n), true, particlesName, pdcIncrements, outputDirectory);
      SynthIdsExact(n);
    }
  }
}
