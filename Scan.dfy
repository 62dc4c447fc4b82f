/** The tokenizer and the single forward boundary scan of `convertPcToPdc`:
    the text is cut at `[`, `]` and spaces, and one pass over the tokens
    finds where the position block and the optional id block begin and end. */
module Scan {
  import opened Util

  const Separators: set<char> := {'[', ']', ' '}

  /** `re.split('\[|\]| |', text)`; the empty alternative never splits. */
  function Tokenize(text: string): seq<string>
  {
    Split(text, Separators)
  }

  /** Tokenizing keeps every character that is not a separator, in order,
      and no token holds a separator. */
  lemma {:induction false} TokenizeLossless(text: string)
    ensures |Tokenize(text)| == |Util.Separators(text, Separators)| + 1
    ensures NoneContains(Tokenize(text), Separators)
    ensures Interleave(Tokenize(text), Util.Separators(text, Separators)) == text
  {
    SplitInterleave(text, Separators);
  }

  /** `re.search('$^', t)`: `$` also matches before a final newline, so a
      lone newline counts as empty too. */
  predicate IsBlank(t: string) { t == "" || t == "\n" }

  /** Where `$` matches without MULTILINE: at the end of the text, or just
      before a newline that ends it. */
  predicate DollarAt(t: string, k: nat) { k == |t| || (k + 1 == |t| && t[k] == '\n') }

  /** Where `^` matches without MULTILINE: only at the start. */
  predicate CaretAt(t: string, k: nat) { k == 0 }

  /** `$^` matches somewhere in `t` exactly when the token is blank. */
  lemma {:induction false} BlankIffEmptyMatch(t: string)
    ensures IsBlank(t) <==> exists k: nat | k <= |t| :: CaretAt(t, k) && DollarAt(t, k)
  {
    if IsBlank(t) {
      assert CaretAt(t, 0) && DollarAt(t, 0);
    }
  }

  /** `re.search('"P"', t)` */
  predicate NamesP(t: string) { Contains(t, "\"P\"") }

  /** `re.search('"id"', t)` */
  predicate NamesId(t: string) { Contains(t, "\"id\"") }

  /** `re.search('"', t)` */
  predicate HasQuote(t: string) { '"' in t }

  lemma {:induction false} ContainsHasQuote(t: string, pat: string)
    requires |pat| > 0 && pat[0] == '"'
    requires Contains(t, pat)
    ensures HasQuote(t)
  {
    if t[..|pat|] != pat {
      ContainsHasQuote(t[1..], pat);
      assert t[1..][0] == t[1];
    } else {
      assert t[0] == '"';
    }
  }

  /** A token that names an attribute is never blank. */
  lemma {:induction false} NamingTokenNotBlank(t: string)
    requires NamesP(t) || NamesId(t)
    ensures !IsBlank(t) && HasQuote(t)
  {
    if NamesP(t) { ContainsHasQuote(t, "\"P\""); } else { ContainsHasQuote(t, "\"id\""); }
  }

  /** `k` is the first index at or after `lo` whose token satisfies `p`. */
  ghost predicate IsFirst(content: seq<string>, lo: nat, k: nat, p: string -> bool)
  {
    lo <= k < |content| && p(content[k]) && forall j | lo <= j < k :: !p(content[j])
  }

  /** The first index at or after `lo` whose token satisfies `p`, if any. */
  function First(content: seq<string>, lo: nat, p: string -> bool): Option<nat>
    decreases |content| - lo
  {
    if lo >= |content| then None
    else if p(content[lo]) then Some(lo)
    else First(content, lo + 1, p)
  }

  /** `First` finds the least matching index at or after `lo`, and finds
      none exactly when no token from `lo` on matches. */
  lemma {:induction false} FirstIsFirst(content: seq<string>, lo: nat, p: string -> bool)
    ensures var r := First(content, lo, p);
      (r.Some? ==> IsFirst(content, lo, r.value, p)) &&
      (r.None? <==> forall j | lo <= j < |content| :: !p(content[j]))
    decreases |content| - lo
  {
    if lo < |content| && !p(content[lo]) {
      FirstIsFirst(content, lo + 1, p);
    }
  }

  /** What the scan leaves behind: `vartest`, `index3`, `index4`,
      `vartest1`, `index5`, `index6` (None where the name stays unbound). */
  datatype Bounds = Bounds(
    hasP: bool, coordsStart: Option<nat>, coordsEnd: Option<nat>,
    hasId: bool, idStart: Option<nat>, idEnd: Option<nat>)

  function Max(a: nat, b: nat): nat { if a < b then b else a }

  /** The boundaries, stated declaratively: the position block opens at the
      first blank token after the first "P" token and closes at the next
      quoted token; the id block opens at the first blank token after both
      the first "P" and the first "id" token and closes at the next quoted
      token. */
  function ScanSpec(content: seq<string>): Bounds
  {
    var p := First(content, 0, NamesP);
    var d := First(content, 0, NamesId);
    if p.None? then Bounds(false, None, None, d.Some?, None, None)
    else
      var i3 := First(content, p.value + 1, IsBlank);
      var i4 := if i3.Some? then First(content, i3.value + 1, HasQuote) else None;
      var i5 := if d.Some? then First(content, Max(p.value, d.value) + 1, IsBlank) else None;
      var i6 := if i5.Some? then First(content, i5.value + 1, HasQuote) else None;
      Bounds(true, i3, i4, d.Some?, i5, i6)
  }

  /** The scan sees a "P" (an "id") token exactly when the text has one;
      without "P" nothing is bound, and a closing boundary is only ever set
      after its opening one. */
  lemma {:induction false} ScanSpecFlags(content: seq<string>)
    ensures var b := ScanSpec(content);
      (b.hasP <==> exists j | 0 <= j < |content| :: NamesP(content[j])) &&
      (b.hasId <==> exists j | 0 <= j < |content| :: NamesId(content[j])) &&
      (!b.hasP ==> b.coordsStart.None? && b.coordsEnd.None? && b.idStart.None? && b.idEnd.None?) &&
      (!b.hasId ==> b.idStart.None? && b.idEnd.None?) &&
      (b.coordsEnd.Some? ==> b.coordsStart.Some?) &&
      (b.idEnd.Some? ==> b.idStart.Some?)
  {
    FirstIsFirst(content, 0, NamesP);
    FirstIsFirst(content, 0, NamesId);
  }

  /** The position block opens at the first blank token after the first
      "P" token and closes at the next quoted token; each boundary is unset
      exactly when no such token exists. */
  lemma {:induction false} PositionBlockBounds(content: seq<string>)
    ensures var b := ScanSpec(content);
      b.hasP ==>
        var p := First(content, 0, NamesP).value;
        IsFirst(content, 0, p, NamesP) &&
        (b.coordsStart.Some? ==> IsFirst(content, p + 1, b.coordsStart.value, IsBlank)) &&
        (b.coordsStart.None? ==> forall j | p < j < |content| :: !IsBlank(content[j]))
    ensures var b := ScanSpec(content);
      b.coordsStart.Some? ==>
        var s := b.coordsStart.value;
        (b.coordsEnd.Some? ==> IsFirst(content, s + 1, b.coordsEnd.value, HasQuote)) &&
        (b.coordsEnd.None? ==> forall j | s < j < |content| :: !HasQuote(content[j]))
  {
    var p := First(content, 0, NamesP);
    FirstIsFirst(content, 0, NamesP);
    if p.Some? {
      FirstIsFirst(content, p.value + 1, IsBlank);
      var i3 := First(content, p.value + 1, IsBlank);
      if i3.Some? { FirstIsFirst(content, i3.value + 1, HasQuote); }
    }
  }

  /** The id block opens at the first blank token after both the first "P"
      and the first "id" token, and closes at the next quoted token; each
      boundary is unset exactly when no such token exists. */
  lemma {:induction false} IdBlockBounds(content: seq<string>)
    ensures var b := ScanSpec(content);
      b.hasP && b.hasId ==>
        var p := First(content, 0, NamesP).value;
        var d := First(content, 0, NamesId).value;
        IsFirst(content, 0, d, NamesId) &&
        (b.idStart.Some? ==> IsFirst(content, Max(p, d) + 1, b.idStart.value, IsBlank)) &&
        (b.idStart.None? ==> forall j | Max(p, d) < j < |content| :: !IsBlank(content[j]))
    ensures var b := ScanSpec(content);
      b.idStart.Some? ==>
        var s := b.idStart.value;
        (b.idEnd.Some? ==> IsFirst(content, s + 1, b.idEnd.value, HasQuote)) &&
        (b.idEnd.None? ==> forall j | s < j < |content| :: !HasQuote(content[j]))
  {
    var p := First(content, 0, NamesP);
    var d := First(content, 0, NamesId);
    FirstIsFirst(content, 0, NamesP);
    FirstIsFirst(content, 0, NamesId);
    if p.Some? && d.Some? {
      FirstIsFirst(content, Max(p.value, d.value) + 1, IsBlank);
      var i5 := First(content, Max(p.value, d.value) + 1, IsBlank);
      if i5.Some? { FirstIsFirst(content, i5.value + 1, HasQuote); }
    }
  }

  /** The block boundaries are strictly ordered: the "P" token comes before
      the blank token that opens the positions, which comes before the
      quoted token that closes them; likewise for the ids. */
  lemma {:induction false} BoundsOrdered(content: seq<string>)
    ensures var b := ScanSpec(content);
      (b.coordsEnd.Some? ==>
        First(content, 0, NamesP).Some? &&
        First(content, 0, NamesP).value < b.coordsStart.value < b.coordsEnd.value <= |content| - 1) &&
      (b.idEnd.Some? ==>
        First(content, 0, NamesId).Some? && First(content, 0, NamesP).Some? &&
        First(content, 0, NamesId).value < b.idStart.value < b.idEnd.value <= |content| - 1 &&
        First(content, 0, NamesP).value < b.idStart.value)
  {
    ScanSpecFlags(content);
    PositionBlockBounds(content);
    IdBlockBounds(content);
  }

  predicate Found(o: Option<nat>, k: nat) { o.Some? && o.value < k }

  lemma {:induction false} FirstInRange(content: seq<string>, lo: nat, p: string -> bool)
    ensures var o := First(content, lo, p); o.Some? ==> lo <= o.value < |content|
  {
    FirstIsFirst(content, lo, p);
  }

  /** Moving the scan one token forward finds the first match exactly when
      that token is it. */
  lemma {:induction false} FoundStep(content: seq<string>, lo: nat, p: string -> bool, k: nat)
    requires k < |content|
    ensures var o := First(content, lo, p);
      (Found(o, k + 1) <==> Found(o, k) || (lo <= k && p(content[k]))) &&
      (Found(o, k + 1) && !Found(o, k) ==> o.value == k)
  {
    FirstIsFirst(content, lo, p);
  }

  /** The two latches and two index variables of one block search:
      `vartesta`/`index3`, `vartestb`/`index4` for the positions and
      `vartestc`/`index5`, `vartestd`/`index6` for the ids. */
  datatype Latches = Latches(isOpen: bool, start: nat, isClosed: bool, end: nat)

  /** The scan's variables after some prefix of the tokens. */
  datatype ScanState = ScanState(
    vartest: bool, index1: nat, vartest1: bool, index2: nat, pos: Latches, ids: Latches)

  const Unscanned := ScanState(false, 0, false, 0, Latches(false, 0, false, 0), Latches(false, 0, false, 0))

  /** One token of the block search that the scan runs twice, once for the
      position block and once for the id block: latch the first blank token
      after the naming token at `named`, then the first quoted token after
      it. */
  function BlockStep(l: Latches, named: nat, item: string, count: nat): Latches
  {
    var opens := !l.isOpen && IsBlank(item) && count > named;
    var start := if opens then count else l.start;
    var closes := (l.isOpen || opens) && !l.isClosed && HasQuote(item) && count > start;
    Latches(l.isOpen || opens, start, l.isClosed || closes, if closes then count else l.end)
  }

  /** What one iteration of the scan loop does with the token at `count`. */
  function Step(st: ScanState, item: string, count: nat): ScanState
  {
    var t := st.vartest || NamesP(item);
    var i1 := if NamesP(item) then count else st.index1;
    var t1 := st.vartest1 || NamesId(item);
    var i2 := if NamesId(item) then count else st.index2;
    ScanState(t, i1, t1, i2,
              if t then BlockStep(st.pos, i1, item, count) else st.pos,
              if t && t1 then BlockStep(st.ids, i2, item, count) else st.ids)
  }

  /** The scan's variables after the first `k` tokens. */
  function ScanPrefix(content: seq<string>, k: nat): ScanState
    requires k <= |content|
  {
    if k == 0 then Unscanned else Step(ScanPrefix(content, k - 1), content[k - 1], k - 1)
  }

  /** What the scan hands on: unset index variables become None. */
  function Outcome(st: ScanState): Bounds
  {
    Bounds(st.vartest,
           if st.pos.isOpen then Some(st.pos.start) else None,
           if st.pos.isClosed then Some(st.pos.end) else None,
           st.vartest1,
           if st.ids.isOpen then Some(st.ids.start) else None,
           if st.ids.isClosed then Some(st.ids.end) else None)
  }

  /** `l` holds "the first blank token from `lo` has been seen before `k`"
      and "the first quoted token after it has been seen before `k`". */
  ghost predicate Tracks(content: seq<string>, lo: nat, l: Latches, k: nat)
  {
    var o := First(content, lo, IsBlank);
    var c := CloseAfter(content, o);
    (l.isOpen <==> Found(o, k)) && (l.isOpen ==> l.start == o.value) &&
    (l.isClosed <==> Found(c, k)) && (l.isClosed ==> l.end == c.value)
  }

  function CloseAfter(content: seq<string>, o: Option<nat>): Option<nat>
  {
    if o.Some? then First(content, o.value + 1, HasQuote) else None
  }

  /** After `k` tokens the naming latches are set exactly when a "P" (an
      "id") token has been seen, and the index variable points before `k`. */
  lemma {:induction false} NamesLatched(content: seq<string>, k: nat)
    requires k <= |content|
    ensures var st := ScanPrefix(content, k);
      (st.vartest <==> Found(First(content, 0, NamesP), k)) && (st.vartest ==> st.index1 < k) &&
      (st.vartest1 <==> Found(First(content, 0, NamesId), k)) && (st.vartest1 ==> st.index2 < k)
  {
    if k > 0 {
      NamesLatched(content, k - 1);
      FoundStep(content, 0, NamesP, k - 1);
      FoundStep(content, 0, NamesId, k - 1);
    }
  }

  /** One token of a block search keeps its latches tracking the first
      blank token from `lo` and the first quoted token after it. */
  lemma {:induction false} BlockStepTracks(content: seq<string>, lo: nat, count: nat, named: nat, l: Latches)
    requires count < |content| && lo <= count + 1
    requires lo == count + 1 ==> !IsBlank(content[count])
    requires named < count || !IsBlank(content[count])
    requires Tracks(content, lo, l, count)
    ensures Tracks(content, lo, BlockStep(l, named, content[count], count), count + 1)
  {
    var o := First(content, lo, IsBlank);
    FoundStep(content, lo, IsBlank, count);
    FirstInRange(content, lo, IsBlank);
    if o.Some? {
      FoundStep(content, o.value + 1, HasQuote, count);
      FirstInRange(content, o.value + 1, HasQuote);
    }
  }

  /** After `k` tokens the position latches are set exactly when the
      opening blank token (the closing quoted token) has been seen, and
      `index3` (`index4`) is that token's index. */
  lemma {:induction false} PositionLatched(content: seq<string>, k: nat)
    requires k <= |content|
    ensures var fp := First(content, 0, NamesP);
      fp.Some? ==> Tracks(content, fp.value + 1, ScanPrefix(content, k).pos, k)
    ensures First(content, 0, NamesP).None? ==> ScanPrefix(content, k).pos == Unscanned.pos
  {
    var fp := First(content, 0, NamesP);
    FirstInRange(content, 0, NamesP);
    if k > 0 {
      PositionLatched(content, k - 1);
      NamesLatched(content, k - 1);
      NamesLatched(content, k);
      var item := content[k - 1];
      if NamesP(item) { NamingTokenNotBlank(item); }
      if fp.Some? {
        FirstInRange(content, fp.value + 1, IsBlank);
        var o := First(content, fp.value + 1, IsBlank);
        if o.Some? { FirstInRange(content, o.value + 1, HasQuote); }
        var st := ScanPrefix(content, k - 1);
        assert ScanPrefix(content, k) == Step(st, item, k - 1);
        if fp.value < k {
          var i1 := if NamesP(item) then k - 1 else st.index1;
          assert ScanPrefix(content, k).pos == BlockStep(st.pos, i1, item, k - 1);
          BlockStepTracks(content, fp.value + 1, k - 1, i1, st.pos);
        } else {
          assert ScanPrefix(content, k).pos == st.pos;
        }
      }
    }
  }

  /** After `k` tokens the id latches are set exactly when the opening
      blank token (the closing quoted token) of the id block has been seen,
      and `index5` (`index6`) is that token's index. */
  lemma {:induction false} IdLatched(content: seq<string>, k: nat)
    requires k <= |content|
    ensures var fp := First(content, 0, NamesP);
      var fd := First(content, 0, NamesId);
      fp.Some? && fd.Some? ==> Tracks(content, Max(fp.value, fd.value) + 1, ScanPrefix(content, k).ids, k)
    ensures First(content, 0, NamesP).None? || First(content, 0, NamesId).None? ==>
      ScanPrefix(content, k).ids == Unscanned.ids
  {
    var fp := First(content, 0, NamesP);
    var fd := First(content, 0, NamesId);
    FirstInRange(content, 0, NamesP);
    FirstInRange(content, 0, NamesId);
    if k > 0 {
      IdLatched(content, k - 1);
      NamesLatched(content, k - 1);
      NamesLatched(content, k);
      var item := content[k - 1];
      if NamesP(item) || NamesId(item) { NamingTokenNotBlank(item); }
      if fp.Some? && fd.Some? {
        var lo := Max(fp.value, fd.value) + 1;
        FirstInRange(content, lo, IsBlank);
        var o := First(content, lo, IsBlank);
        if o.Some? { FirstInRange(content, o.value + 1, HasQuote); }
        var st := ScanPrefix(content, k - 1);
        assert ScanPrefix(content, k) == Step(st, item, k - 1);
        if lo <= k {
          var i2 := if NamesId(item) then k - 1 else st.index2;
          assert ScanPrefix(content, k).ids == BlockStep(st.ids, i2, item, k - 1);
          BlockStepTracks(content, lo, k - 1, i2, st.ids);
        }
      }
    }
  }

  /** The position block's latches after the whole scan agree with the
      declarative boundaries. */
  lemma {:induction false} PositionOutcome(content: seq<string>)
    ensures var st := ScanPrefix(content, |content|);
      var spec := ScanSpec(content);
      st.vartest == spec.hasP && st.vartest1 == spec.hasId &&
      Outcome(st).coordsStart == spec.coordsStart && Outcome(st).coordsEnd == spec.coordsEnd
  {
    var k := |content|;
    NamesLatched(content, k);
    PositionLatched(content, k);
    var fp := First(content, 0, NamesP);
    FirstInRange(content, 0, NamesP);
    FirstInRange(content, 0, NamesId);
    var st := ScanPrefix(content, k);
    var spec := ScanSpec(content);
    if fp.Some? {
      var o3 := First(content, fp.value + 1, IsBlank);
      FirstInRange(content, fp.value + 1, IsBlank);
      if o3.Some? { FirstInRange(content, o3.value + 1, HasQuote); }
      assert Tracks(content, fp.value + 1, st.pos, k);
      assert spec.coordsStart == o3 && spec.coordsEnd == CloseAfter(content, o3);
    } else {
      assert st.pos == Unscanned.pos;
    }
    assert Outcome(st).coordsStart == spec.coordsStart;
    assert Outcome(st).coordsEnd == spec.coordsEnd;
  }

  /** The id block's latches after the whole scan agree with the
      declarative boundaries. */
  lemma {:induction false} IdOutcome(content: seq<string>)
    ensures var st := ScanPrefix(content, |content|);
      var spec := ScanSpec(content);
      Outcome(st).idStart == spec.idStart && Outcome(st).idEnd == spec.idEnd
  {
    var k := |content|;
    IdLatched(content, k);
    var fp := First(content, 0, NamesP);
    var fd := First(content, 0, NamesId);
    var st := ScanPrefix(content, k);
    var spec := ScanSpec(content);
    if fp.Some? && fd.Some? {
      var o5 := First(content, Max(fp.value, fd.value) + 1, IsBlank);
      FirstInRange(content, Max(fp.value, fd.value) + 1, IsBlank);
      if o5.Some? { FirstInRange(content, o5.value + 1, HasQuote); }
      assert Tracks(content, Max(fp.value, fd.value) + 1, st.ids, k);
      assert spec.idStart == o5 && spec.idEnd == CloseAfter(content, o5);
    } else {
      assert st.ids == Unscanned.ids;
    }
    assert Outcome(st).idStart == spec.idStart;
    assert Outcome(st).idEnd == spec.idEnd;
  }

  /** Running the scan over every token yields the declarative boundaries. */
  lemma {:induction false} ScanMatchesSpec(content: seq<string>)
    ensures Outcome(ScanPrefix(content, |content|)) == ScanSpec(content)
  {
    PositionOutcome(content);
    IdOutcome(content);
  }

  /** The source's nested `if`s for one block search on one token, updating
      the latch variables in the order the loop body does. `BlockStep` is
      the same step as a value, which the proofs about the scan use; this
      method is the loop's statement form and is proved equal to it. */
  method AdvanceBlock(l: Latches, named: nat, item: string, count: nat) returns (r: Latches)
    ensures r == BlockStep(l, named, item, count)
  {
    var vartesta, index3, vartestb, index4 := l.isOpen, l.start, l.isClosed, l.end;
    if !vartesta {
      if IsBlank(item) {
        if count > named {
          index3, vartesta := count, true;
        }
      }
    }
    if vartesta {
      if !vartestb {
        if HasQuote(item) {
          if count > index3 {
            index4, vartestb := count, true;
          }
        }
      }
    }
    r := Latches(vartesta, index3, vartestb, index4);
  }

  /** The scan loop of `convertPcToPdc`: the latches `vartest`,
      `vartest1` and the two block searches, in one forward pass over the
      tokens. */
  method ScanTokens(content: seq<string>) returns (b: Bounds)
    ensures b == ScanSpec(content)
  {
    var vartest, vartest1 := false, false;
    var index1, index2 := 0, 0;
    var pos, ids := Unscanned.pos, Unscanned.ids;
    var count := 0;
    while count < |content|
      invariant 0 <= count <= |content|
      invariant ScanState(vartest, index1, vartest1, index2, pos, ids) == ScanPrefix(content, count)
    {
      var item := content[count];
      if NamesP(item) {
        index1, vartest := count, true;
      }
      if NamesId(item) {
        index2, vartest1 := count, true;
      }
      if vartest {
        pos := AdvanceBlock(pos, index1, item, count);
        if vartest1 {
          ids := AdvanceBlock(ids, index2, item, count);
        }
      }
      count := count + 1;
    }
    b := Outcome(ScanState(vartest, index1, vartest1, index2, pos, ids));
    ScanMatchesSpec(content);
  }
}
