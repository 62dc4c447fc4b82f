/** Attribute extraction: from the tokens of one block to the list of
    doubles the converter packs (Barnett-PointConverter.py, lines 182-222). */
module Extract {
  import opened Util
  import opened Float64

  /** Python's `float(s)` on one field. Reading decimal text is a parameter:
      `parse` gives the double a non-empty field denotes, or None where
      Python raises ValueError. The empty field always raises. */
  function FloatOf(parse: string -> Option<Bits64>, s: string): (r: Option<Bits64>)
    ensures s == "" ==> r.None?
  {
    if s == "" then None else parse(s)
  }

  predicate HasDigit(s: string)
  {
    exists i | 0 <= i < |s| :: IsDigit(s[i])
  }

  // ---------------------------------------------------------------------
  // The strip loop: drop characters from the end until the last one is a
  // digit; `s[-1]` on the empty string raises IndexError.
  // ---------------------------------------------------------------------

  /** What the strip loop leaves of `s`. */
  function Stripped(s: string): (r: Result<string>)
    ensures r.Success? ==> r.value != [] && IsDigit(r.value[|r.value| - 1])
    ensures r.Err? ==> r.error == StripOnEmpty
  {
    if s == [] then Err(StripOnEmpty)
    else if IsDigit(s[|s| - 1]) then Success(s)
    else Stripped(s[..|s| - 1])
  }

  /** The loop fails exactly on text without a digit; otherwise it keeps
      the longest prefix that ends in a digit, having removed only
      non-digits. */
  lemma {:induction false} StrippedSpec(s: string)
    ensures Stripped(s).Success? <==> HasDigit(s)
    ensures Stripped(s).Err? ==> Stripped(s).error == StripOnEmpty
    ensures Stripped(s).Success? ==>
      var t := Stripped(s).value;
      1 <= |t| <= |s| && t == s[..|t|] && IsDigit(t[|t| - 1]) &&
      forall i | |t| <= i < |s| :: !IsDigit(s[i])
  {
    if s != [] && !IsDigit(s[|s| - 1]) {
      var s' := s[..|s| - 1];
      StrippedSpec(s');
      if HasDigit(s) {
        var i :| 0 <= i < |s| && IsDigit(s[i]);
        assert s'[i] == s[i];
      }
      if Stripped(s).Success? {
        var t := Stripped(s).value;
        assert t == s'[..|t|];
      }
    }
  }

  /** Stripping twice strips nothing more. */
  lemma {:induction false} StrippedIdempotent(s: string)
    requires Stripped(s).Success?
    ensures Stripped(Stripped(s).value) == Stripped(s)
  {
    StrippedSpec(s);
  }

  /** The `while running` loop of lines 184-189 and 212-217. */
  method StripTrailingNonDigits(s: string) returns (r: Result<string>)
    ensures r == Stripped(s)
  {
    var t := s;
    var running := true;
    while running
      invariant Stripped(t) == Stripped(s)
      invariant !running ==> t != [] && IsDigit(t[|t| - 1])
      decreases |t| + (if running then 1 else 0)
    {
      if t == [] {
        return Err(StripOnEmpty);
      }
      if !IsDigit(t[|t| - 1]) {
        t := t[..|t| - 1];
      } else {
        running := false;
      }
    }
    return Success(t);
  }

  // ---------------------------------------------------------------------
  // Whitespace
  // ---------------------------------------------------------------------

  /** `''.join(s.split())`: every whitespace character removed. */
  function RemoveWhitespace(s: string): (r: string)
    ensures |r| <= |s|
    ensures forall i | 0 <= i < |r| :: !IsSpace(r[i])
  {
    if s == [] then []
    else
      var rest := RemoveWhitespace(s[1..]);
      if IsSpace(s[0]) then rest else [s[0]] + rest
  }

  /** Every character other than whitespace keeps its count, and every
      whitespace character is gone. */
  lemma {:induction false} RemoveWhitespaceCounts(s: string)
    ensures forall c :: multiset(RemoveWhitespace(s))[c] == if IsSpace(c) then 0 else multiset(s)[c]
  {
    if s != [] {
      RemoveWhitespaceCounts(s[1..]);
      assert s == [s[0]] + s[1..];
    }
  }

  /** One character: whitespace vanishes and anything else stays, so with
      `RemoveWhitespaceAppend` the function is fixed on every text. */
  lemma {:induction false} RemoveWhitespaceChar(c: char)
    ensures IsSpace(c) ==> RemoveWhitespace([c]) == []
    ensures !IsSpace(c) ==> RemoveWhitespace([c]) == [c]
  {
    assert [c][1..] == [];
  }

  lemma {:induction false} RemoveWhitespaceAppend(a: string, b: string)
    ensures RemoveWhitespace(a + b) == RemoveWhitespace(a) + RemoveWhitespace(b)
  {
    if a == [] {
      assert a + b == b;
    } else {
      assert (a + b)[0] == a[0];
      assert (a + b)[1..] == a[1..] + b;
      RemoveWhitespaceAppend(a[1..], b);
    }
  }

  /** Text without whitespace is left as it is. */
  lemma {:induction false} RemoveWhitespaceClean(s: string)
    requires forall i | 0 <= i < |s| :: !IsSpace(s[i])
    ensures RemoveWhitespace(s) == s
  {
    if s != [] {
      RemoveWhitespaceClean(s[1..]);
      assert [s[0]] + s[1..] == s;
    }
  }

  /** Removing whitespace twice removes nothing more. */
  lemma {:induction false} RemoveWhitespaceIdempotent(s: string)
    ensures RemoveWhitespace(RemoveWhitespace(s)) == RemoveWhitespace(s)
  {
    RemoveWhitespaceClean(RemoveWhitespace(s));
  }

  /** `s.strip()` from the left: the suffix after the leading whitespace. */
  function TrimLeft(s: string): (r: string)
    ensures |r| <= |s| && r == s[|s| - |r|..]
    ensures forall i | 0 <= i < |s| - |r| :: IsSpace(s[i])
    ensures r == [] || !IsSpace(r[0])
  {
    if s != [] && IsSpace(s[0]) then TrimLeft(s[1..]) else s
  }

  /** `s.strip()` from the right: the prefix before the trailing whitespace. */
  function TrimRight(s: string): (r: string)
    ensures |r| <= |s| && r == s[..|r|]
    ensures forall i | |r| <= i < |s| :: IsSpace(s[i])
    ensures r == [] || !IsSpace(r[|r| - 1])
  {
    if s != [] && IsSpace(s[|s| - 1]) then TrimRight(s[..|s| - 1]) else s
  }

  /** `s.strip()` */
  function Trim(s: string): string
  {
    TrimRight(TrimLeft(s))
  }

  /** The stripped field is the slice of the field after its leading
      whitespace. */
  lemma {:induction false} TrimSlice(s: string)
    ensures var lead := |s| - |TrimLeft(s)|;
      lead + |Trim(s)| <= |s| && Trim(s) == s[lead..lead + |Trim(s)|]
  {
    var l := TrimLeft(s);
    SliceOfSuffix(s, |s| - |l|, l, TrimRight(l));
  }

  /** A prefix of a suffix is a middle slice. */
  lemma {:induction false} SliceOfSuffix(s: string, lead: nat, l: string, r: string)
    requires lead <= |s| && l == s[lead..] && |r| <= |l| && r == l[..|r|]
    ensures lead + |r| <= |s| && r == s[lead..lead + |r|]
  {
  }

  /** Only whitespace lies around the stripped field. */
  lemma {:induction false} TrimSurround(s: string)
    ensures var lead := |s| - |TrimLeft(s)|;
      (forall i | 0 <= i < lead :: IsSpace(s[i])) &&
      (forall i | lead + |Trim(s)| <= i < |s| :: IsSpace(s[i]))
  {
    var l := TrimLeft(s);
    var r := TrimRight(l);
    var lead := |s| - |l|;
    forall i | lead + |r| <= i < |s| ensures IsSpace(s[i]) {
      assert s[i] == l[i - lead];
    }
  }

  /** A stripped field neither starts nor ends with whitespace and is a
      slice of the field with only whitespace around it. */
  lemma {:induction false} StripField(s: string)
    ensures var r := Trim(s);
      var lead := |s| - |TrimLeft(s)|;
      lead + |r| <= |s| && r == s[lead..lead + |r|] &&
      (forall i | 0 <= i < lead :: IsSpace(s[i])) &&
      (forall i | lead + |r| <= i < |s| :: IsSpace(s[i])) &&
      (r == [] || (!IsSpace(r[0]) && !IsSpace(r[|r| - 1])))
  {
    TrimSlice(s);
    TrimSurround(s);
    var l := TrimLeft(s);
    if TrimRight(l) != [] {
      assert TrimRight(l)[0] == l[0];
    }
  }

  // ---------------------------------------------------------------------
  // Splitting on commas
  // ---------------------------------------------------------------------

  /** Cutting at a separator splits the pieces of both sides apart. */
  lemma {:induction false} SplitConcat(a: string, c: char, b: string, seps: set<char>)
    requires c in seps
    ensures Split(a + [c] + b, seps) == Split(a, seps) + Split(b, seps)
  {
    var x := a + [c] + b;
    if a == [] {
      assert x == [c] + b;
      assert x[1..] == b;
    } else {
      assert x[0] == a[0];
      assert x[1..] == a[1..] + [c] + b;
      SplitConcat(a[1..], c, b, seps);
      if a[0] !in seps {
        PrependPiece(a[0], Split(a[1..], seps), Split(b, seps));
      }
    }
  }

  /** Gluing a character onto the first piece commutes with appending
      further pieces. */
  lemma PrependPiece(ch: char, left: seq<string>, tail: seq<string>)
    requires |left| >= 1
    ensures [[ch] + (left + tail)[0]] + (left + tail)[1..] == [[ch] + left[0]] + left[1..] + tail
  {
    assert (left + tail)[1..] == left[1..] + tail;
  }

  /** Pieces of text that lacks the characters `bad` lack them too. */
  lemma {:induction false} SplitAvoids(s: string, seps: set<char>, bad: set<char>)
    requires forall i | 0 <= i < |s| :: s[i] !in bad
    ensures NoneContains(Split(s, seps), bad)
  {
    if s != [] {
      SplitAvoids(s[1..], seps, bad);
      var rest := Split(s[1..], seps);
      if s[0] in seps {
        var r := [""] + rest;
        forall i, j | 0 <= i < |r| && 0 <= j < |r[i]| ensures r[i][j] !in bad {
          assert r[i] == rest[i - 1];
        }
      } else {
        ConsNoneContains(s[0], rest, bad);
      }
    }
  }

  /** Appending ",,," adds three empty fields. */
  lemma {:induction false} PadFields(x: string)
    ensures Split(x + ",,,", {','}) == Split(x, {','}) + ["", "", ""]
  {
    assert x + ",,," == x + [','] + ",,";
    SplitConcat(x, ',', ",,", {','});
    assert Split(",,", {','}) == [""] + Split(",", {','});
    assert Split(",", {','}) == [""] + Split("", {','});
  }

  // ---------------------------------------------------------------------
  // Grouping: the first three of every six fields
  // ---------------------------------------------------------------------

  /** Where the `j`-th kept value comes from. */
  function GroupField(j: nat): nat
  {
    6 * (j / 3) + j % 3
  }

  /** The first three fields of every complete group of six, in order. */
  function Kept(fields: seq<string>): seq<string>
  {
    if |fields| < 6 then [] else fields[..3] + Kept(fields[6..])
  }

  /** The comprehension `[' '.join(split[6*i:6*i+3]) for i in ...]`. */
  function GroupStrings(fields: seq<string>): seq<string>
  {
    if |fields| < 6 then [] else [Join(fields[..3], ' ')] + GroupStrings(fields[6..])
  }

  /** `' '.join(outputs).split(' ')` */
  function Outputs(fields: seq<string>): seq<string>
  {
    Split(Join(GroupStrings(fields), ' '), {' '})
  }

  /** Grouping keeps three values per complete group of six: value `j` is
      field `6*(j/3) + j%3`, so fields 3-5 of each group and a final
      incomplete group are never used. */
  lemma {:induction false} KeptIndex(fields: seq<string>)
    ensures |Kept(fields)| == 3 * (|fields| / 6)
    ensures forall j | 0 <= j < |Kept(fields)| ::
      GroupField(j) < |fields| && Kept(fields)[j] == fields[GroupField(j)]
  {
    if |fields| >= 6 {
      var rest := fields[6..];
      KeptIndex(rest);
      var k := Kept(fields);
      assert |rest| / 6 == |fields| / 6 - 1;
      forall j | 0 <= j < |k| ensures GroupField(j) < |fields| && k[j] == fields[GroupField(j)] {
        if j >= 3 {
          assert k[j] == Kept(rest)[j - 3];
          GroupFieldShift(j);
        }
      }
    }
  }

  lemma {:induction false} GroupFieldShift(j: nat)
    requires j >= 3
    ensures GroupField(j) == 6 + GroupField(j - 3)
  {
    assert j / 3 == (j - 3) / 3 + 1;
    assert j % 3 == (j - 3) % 3;
  }

  lemma {:induction false} JoinGroups(fields: seq<string>)
    requires |fields| >= 6
    ensures Join(GroupStrings(fields), ' ') == Join(Kept(fields), ' ')
  {
    var rest := fields[6..];
    if |rest| >= 6 {
      JoinGroups(rest);
      JoinAppend(fields[..3], Kept(rest), ' ');
      KeptIndex(rest);
    } else {
      assert Kept(fields) == fields[..3];
    }
  }

  /** Without spaces in the fields, joining and re-splitting on spaces
      gives back exactly the kept fields, or a single empty string when
      there is not one complete group. */
  lemma {:induction false} OutputsKept(fields: seq<string>)
    requires NoneContains(fields, {' '})
    ensures |fields| < 6 ==> Outputs(fields) == [""]
    ensures |fields| >= 6 ==> Outputs(fields) == Kept(fields)
  {
    if |fields| >= 6 {
      JoinGroups(fields);
      KeptIndex(fields);
      var k := Kept(fields);
      assert NoneContains(k, {' '}) by {
        forall i, j | 0 <= i < |k| && 0 <= j < |k[i]| ensures k[i][j] !in {' '} {
          assert k[i] == fields[GroupField(i)];
        }
      }
      SplitJoin(k, ' ');
    }
  }

  // ---------------------------------------------------------------------
  // float() over a list
  // ---------------------------------------------------------------------

  /** `tuple(float(f) for f in fields)`: ValueError at the first bad field. */
  function ParseAll(parse: string -> Option<Bits64>, fields: seq<string>): Result<seq<Bits64>>
  {
    if fields == [] then Success([])
    else
      var x := FloatOf(parse, fields[0]);
      if x.None? then Err(BadFloat)
      else
        var rest :- ParseAll(parse, fields[1..]);
        Success([x.value] + rest)
  }

  /** The list parses exactly when every field does, into one double per
      field in order; otherwise the error is ValueError. */
  lemma {:induction false} ParseAllSpec(parse: string -> Option<Bits64>, fields: seq<string>)
    ensures ParseAll(parse, fields).Success? <==>
      forall i | 0 <= i < |fields| :: FloatOf(parse, fields[i]).Some?
    ensures ParseAll(parse, fields).Err? ==> ParseAll(parse, fields).error == BadFloat
    ensures ParseAll(parse, fields).Success? ==>
      var xs := ParseAll(parse, fields).value;
      |xs| == |fields| &&
      forall i | 0 <= i < |fields| :: xs[i] == FloatOf(parse, fields[i]).value
  {
    if fields != [] {
      ParseAllSpec(parse, fields[1..]);
      if forall i | 0 <= i < |fields| :: FloatOf(parse, fields[i]).Some? {
        assert forall i | 0 <= i < |fields[1..]| :: FloatOf(parse, fields[1..][i]).Some? by {
          forall i | 0 <= i < |fields[1..]| ensures FloatOf(parse, fields[1..][i]).Some? {
            assert fields[1..][i] == fields[i + 1];
          }
        }
      } else if FloatOf(parse, fields[0]).Some? {
        var i :| 0 <= i < |fields| && FloatOf(parse, fields[i]).None?;
        assert fields[1..][i - 1] == fields[i];
      }
    }
  }

  // ---------------------------------------------------------------------
  // The two blocks
  // ---------------------------------------------------------------------

  /** The comma fields after whitespace removal and the ",,," padding
      (`split` in the source). */
  function PaddedFields(t: string): seq<string>
  {
    Split(RemoveWhitespace(t + ",,,"), {','})
  }

  /** Lines 182-199: the coordinate tokens to the tuple of coordinates. */
  function Positions(parse: string -> Option<Bits64>, block: seq<string>): Result<seq<Bits64>>
  {
    var t :- Stripped(Join(block, ','));
    ParseAll(parse, Outputs(PaddedFields(t)))
  }

  /** The padding adds three empty fields to the comma fields of the
      whitespace-free text, and no field holds a space. */
  lemma {:induction false} PaddedFieldsShape(t: string)
    ensures PaddedFields(t) == Split(RemoveWhitespace(t), {','}) + ["", "", ""]
    ensures NoneContains(PaddedFields(t), {' '})
  {
    RemoveWhitespaceAppend(t, ",,,");
    RemoveWhitespaceClean(",,,");
    PadFields(RemoveWhitespace(t));
    SplitAvoids(RemoveWhitespace(t + ",,,"), {','}, {' '});
  }

  /** `r` is what grouping and parsing the comma fields gives: the
      first three of every six fields, counting three padding fields, so
      `3 * ((len(fields) + 3) // 6)` values, value j the parse of field
      `6*(j//3) + j%3`; ValueError when a kept field does not parse or no
      group is formed. */
  ghost predicate ParsedGroups(parse: string -> Option<Bits64>, fields: seq<string>, r: Result<seq<Bits64>>)
  {
    var n := (|fields| + 3) / 6;
    (r.Err? ==> r.error == BadFloat) &&
    (r.Success? <==> n > 0 && forall j | 0 <= j < 3 * n ::
       GroupField(j) < |fields| && FloatOf(parse, fields[GroupField(j)]).Some?) &&
    (r.Success? ==> (|r.value| == 3 * n &&
       forall j | 0 <= j < 3 * n :: r.value[j] == FloatOf(parse, fields[GroupField(j)]).value))
  }

  /** Grouping and parsing the stripped text of a position block. */
  lemma {:induction false} GroupedText(parse: string -> Option<Bits64>, t: string)
    ensures ParsedGroups(parse, Split(RemoveWhitespace(t), {','}), ParseAll(parse, Outputs(PaddedFields(t))))
  {
    var fields := Split(RemoveWhitespace(t), {','});
    var padded := PaddedFields(t);
    PaddedFieldsShape(t);
    OutputsKept(padded);
    var outs := Outputs(padded);
    ParseAllSpec(parse, outs);
    if |padded| >= 6 {
      KeptIndex(padded);
      forall j | 0 <= j < |outs| ensures GroupField(j) < |fields| && outs[j] == fields[GroupField(j)] {
        KeptFieldIsReal(j, |fields|);
        assert padded[GroupField(j)] == fields[GroupField(j)];
      }
    } else {
      assert FloatOf(parse, outs[0]).None?;
    }
  }

  /** The coordinates, field by field. With `fields` the comma fields of
      the stripped, whitespace-free text and `n = (|fields| + 3) / 6` groups:
      there are `3*n` coordinates and coordinate `j` is `float` of field
      `6*(j/3) + j%3`, never one of the padding fields; without a complete
      group (`n == 0`) or with a malformed field the result is ValueError,
      and text without a digit gives IndexError. */
  lemma {:induction false} PositionsSpec(parse: string -> Option<Bits64>, block: seq<string>)
    ensures Stripped(Join(block, ',')).Err? ==> Positions(parse, block) == Err(StripOnEmpty)
    ensures Stripped(Join(block, ',')).Success? ==>
      ParsedGroups(parse, Split(RemoveWhitespace(Stripped(Join(block, ',')).value), {','}),
                   Positions(parse, block))
  {
    var stripped := Stripped(Join(block, ','));
    if stripped.Success? {
      assert Positions(parse, block) == ParseAll(parse, Outputs(PaddedFields(stripped.value)));
      GroupedText(parse, stripped.value);
    }
  }

  lemma {:induction false} ExampleJoin()
    ensures Join(["1", "2", "3", "0", "0", "1"], ',') == "1,2,3,0,0,1"
  {
  }

  lemma {:induction false} ExampleStrip()
    ensures Stripped(Join(["1,2,3,0,0,1"], ',')) == Success("1,2,3,0,0,1")
  {
  }

  lemma {:induction false} ExampleClean()
    ensures RemoveWhitespace("1,2,3,0,0,1") == "1,2,3,0,0,1"
  {
    RemoveWhitespaceClean("1,2,3,0,0,1");
  }

  lemma {:induction false} ExampleKept()
    ensures Kept(["1", "2", "3", "0", "0", "1", "", "", ""]) == ["1", "2", "3"]
  {
  }

  lemma {:induction false} ExampleParse(parse: string -> Option<Bits64>, x: Bits64, y: Bits64, z: Bits64)
    requires parse("1") == Some(x) && parse("2") == Some(y) && parse("3") == Some(z)
    ensures ParseAll(parse, ["1", "2", "3"]) == Success([x, y, z])
  {
    var fields := ["1", "2", "3"];
    assert FloatOf(parse, fields[0]) == Some(x);
    assert FloatOf(parse, fields[1]) == Some(y);
    assert FloatOf(parse, fields[2]) == Some(z);
    ParseAllSpec(parse, fields);
    var r := ParseAll(parse, fields).value;
    assert r == [x, y, z];
  }

  /** One point written as the six values `1,2,3,0,0,1` gives the single
      position (1, 2, 3): the last three values of the group are dropped. */
  lemma {:induction false} OneGroupExample(parse: string -> Option<Bits64>, x: Bits64, y: Bits64, z: Bits64)
    requires parse("1") == Some(x) && parse("2") == Some(y) && parse("3") == Some(z)
    ensures Positions(parse, ["1,2,3,0,0,1"]) == Success([x, y, z])
  {
    var t := "1,2,3,0,0,1";
    ExampleStrip();
    assert Positions(parse, ["1,2,3,0,0,1"]) == ParseAll(parse, Outputs(PaddedFields(t)));
    ExampleFields();
    ExampleParse(parse, x, y, z);
  }

  lemma {:induction false} ExampleSplit()
    ensures Split("1,2,3,0,0,1", {','}) == ["1", "2", "3", "0", "0", "1"]
  {
    var six := ["1", "2", "3", "0", "0", "1"];
    ExampleJoin();
    assert NoneContains(six, {','});
    SplitJoin(six, ',');
  }

  lemma {:induction false} ExampleFields()
    ensures Outputs(PaddedFields("1,2,3,0,0,1")) == ["1", "2", "3"]
  {
    var t := "1,2,3,0,0,1";
    ExampleClean();
    ExampleSplit();
    PaddedFieldsShape(t);
    var padded := PaddedFields(t);
    assert padded == ["1", "2", "3", "0", "0", "1"] + ["", "", ""];
    OutputsKept(padded);
    ExampleKept();
  }

  /** No kept value comes from the padding. */
  lemma {:induction false} KeptFieldIsReal(j: nat, f: nat)
    requires j < 3 * ((f + 3) / 6)
    ensures GroupField(j) < f
  {
  }

  /** `s.strip()` of every field. */
  function TrimAll(fields: seq<string>): (r: seq<string>)
    ensures |r| == |fields|
  {
    seq(|fields|, i requires 0 <= i < |fields| => Trim(fields[i]))
  }

  /** Lines 208-222: the id tokens to the tuple of ids. */
  function Ids(parse: string -> Option<Bits64>, block: seq<string>): Result<seq<Bits64>>
  {
    var t :- Stripped(Join(block, ','));
    ParseAll(parse, TrimAll(Split(t[1..], {','})))
  }

  /** `r` is what parsing the comma fields gives: one double per field,
      each the parse of that field with its surrounding whitespace removed,
      and ValueError as soon as one field does not parse. */
  ghost predicate ParsedFields(parse: string -> Option<Bits64>, fields: seq<string>, r: Result<seq<Bits64>>)
  {
    (r.Err? ==> r.error == BadFloat) &&
    (r.Success? <==> forall j | 0 <= j < |fields| :: FloatOf(parse, Trim(fields[j])).Some?) &&
    (r.Success? ==> (|r.value| == |fields| &&
       forall j | 0 <= j < |fields| :: r.value[j] == FloatOf(parse, Trim(fields[j])).value))
  }

  /** Parsing the stripped fields field by field. */
  lemma {:induction false} ParseTrimmed(parse: string -> Option<Bits64>, fields: seq<string>)
    ensures ParsedFields(parse, fields, ParseAll(parse, TrimAll(fields)))
  {
    var trimmed := TrimAll(fields);
    ParseAllSpec(parse, trimmed);
    assert forall j | 0 <= j < |fields| :: trimmed[j] == Trim(fields[j]);
  }

  /** The ids, field by field: one id per comma field of the stripped text
      minus its first character, with no grouping; IndexError for text
      without a digit, ValueError for a malformed field. */
  lemma {:induction false} IdsSpec(parse: string -> Option<Bits64>, block: seq<string>)
    ensures Stripped(Join(block, ',')).Err? ==> Ids(parse, block) == Err(StripOnEmpty)
    ensures Stripped(Join(block, ',')).Success? ==>
      var t := Stripped(Join(block, ',')).value;
      ParsedFields(parse, Split(t[1..], {','}), Ids(parse, block))
  {
    var stripped := Stripped(Join(block, ','));
    if stripped.Success? {
      var fields := Split(stripped.value[1..], {','});
      assert Ids(parse, block) == ParseAll(parse, TrimAll(fields));
      ParseTrimmed(parse, fields);
    }
  }

  /** The id block starts with its opening blank token, and dropping the
      first character of the joined text removes what that token left: after
      an empty token, the comma the join put behind it. */
  lemma {:induction false} IdsAfterEmptyToken(parse: string -> Option<Bits64>, x: Bits64)
    requires parse("1") == Some(x)
    ensures Ids(parse, ["", "1"]) == Success([x])
  {
    StripEmptyOne();
    IdsOfStripped(parse, ["", "1"], ",1");
    FieldsAfterFirst();
    ParseOne(parse, x);
  }

  /** The joined block `,1` already ends in a digit. */
  lemma StripEmptyOne()
    ensures Stripped(Join(["", "1"], ',')) == Success(",1")
  {
    assert Join(["", "1"], ',') == ",1";
    assert Stripped(",1") == Success(",1");
  }

  /** Dropping the comma leaves one field, `1`. */
  lemma FieldsAfterFirst()
    ensures TrimAll(Split(",1"[1..], {','})) == ["1"]
  {
    assert ",1"[1..] == "1";
    SplitNoSep("1", {','});
    TrimOne();
    assert TrimAll(["1"])[0] == "1";
  }

  /** `'1'.strip()` is `'1'`. */
  lemma TrimOne()
    ensures Trim("1") == "1"
  {
    assert !IsSpace("1"[0]);
    assert TrimLeft("1") == "1";
    assert TrimRight("1") == "1";
  }

  /** One field that the reader accepts gives one value. */
  lemma ParseOne(parse: string -> Option<Bits64>, x: Bits64)
    requires parse("1") == Some(x)
    ensures ParseAll(parse, ["1"]) == Success([x])
  {
    assert FloatOf(parse, ["1"][0]) == Some(x);
    ParseAllSpec(parse, ["1"]);
    assert ParseAll(parse, ["1"]).value == [x];
  }

  /** Once the strip loop has left `t`, the ids are the parse of the
      trimmed comma fields of `t` without its first character. */
  lemma IdsOfStripped(parse: string -> Option<Bits64>, block: seq<string>, t: string)
    requires Stripped(Join(block, ',')) == Success(t)
    ensures Ids(parse, block) == ParseAll(parse, TrimAll(Split(t[1..], {','})))
  {
  }

  /** After a "\n" token the newline is dropped instead and the comma stays,
      so the first field is empty and `float` raises ValueError. */
  lemma {:induction false} IdsAfterNewlineToken(parse: string -> Option<Bits64>)
    ensures Ids(parse, ["\n", "1"]) == Err(BadFloat)
  {
    assert Join(["\n", "1"], ',') == "\n,1";
    assert Stripped("\n,1") == Success("\n,1");
    assert "\n,1"[1..] == ",1";
    SplitNoSep("1", {','});
    assert Split(",1", {','}) == [""] + Split("1", {','});
    assert Trim("") == "";
    assert TrimAll(["", "1"])[0] == "";
  }

  /** Lines 203-206: `[float(i) for i in range(n)]`. */
  function SynthIds(n: nat): seq<Bits64>
    requires n <= TwoTo53
  {
    seq(n, i requires 0 <= i < n => NatToDouble(i))
  }

  /** The made-up ids are exactly 0.0, 1.0, ..., n-1, so no two particles
      share an id. */
  lemma {:induction false} SynthIdsExact(n: nat)
    requires n <= TwoTo53
    ensures |SynthIds(n)| == n
    ensures forall i | 0 <= i < n :: DenotesInteger(SynthIds(n)[i], i)
    ensures forall i, j | 0 <= i < j < n :: SynthIds(n)[i] != SynthIds(n)[j]
  {
    forall i | 0 <= i < n ensures DenotesInteger(SynthIds(n)[i], i) {
      NatToDoubleExact(i);
    }
    forall i, j | 0 <= i < j < n ensures SynthIds(n)[i] != SynthIds(n)[j] {
      if SynthIds(n)[i] == SynthIds(n)[j] {
        NatToDoubleInjective(i, j);
      }
    }
  }
}
