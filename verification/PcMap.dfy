/** The two program counters of `qed-analysis/src/lib.rs`: a slot counter, in which the wide
    `lddw` takes two 8-byte slots, and a logical counter, in which it takes one. */
module PcMap {
  import opened Words

  const LD_DW_IMM: u8 := 0x18
  const INSN_SIZE: int := 8

  /** A decoded instruction; only the opcode matters to the map. */
  datatype Insn<I> = Insn(opc: u8, rest: I)

  datatype PcMap = PcMap(logicalToSlot: seq<nat>, slotToLogical: seq<Option<nat>>)

  function Span<I>(insn: Insn<I>): (n: nat)
    ensures n == 1 || n == 2
  {
    if insn.opc == LD_DW_IMM then 2 else 1
  }

  // ----- the layout the map stands for -----

  /** The slot at which logical instruction `l` starts; `SlotOf(code, |code|)` is the text's end. */
  function SlotOf<I>(code: seq<Insn<I>>, l: nat): nat
    requires l <= |code|
  {
    if l == 0 then 0 else SlotOf(code, l - 1) + Span(code[l - 1])
  }

  function SlotCount<I>(code: seq<Insn<I>>): nat {
    SlotOf(code, |code|)
  }

  /** Slot `s` belongs to logical instruction `l`. */
  ghost predicate Owns<I>(code: seq<Insn<I>>, l: nat, s: int)
    requires l < |code|
  {
    SlotOf(code, l) <= s < SlotOf(code, l) + Span(code[l])
  }

  ghost predicate IsStart<I>(code: seq<Insn<I>>, s: int) {
    exists l: nat :: l < |code| && SlotOf(code, l) == s
  }

  ghost predicate IsContinuation<I>(code: seq<Insn<I>>, s: int) {
    exists l: nat :: l < |code| && code[l].opc == LD_DW_IMM && SlotOf(code, l) + 1 == s
  }

  lemma SlotZero<I>(code: seq<Insn<I>>)
    ensures SlotOf(code, 0) == 0
  {
  }

  lemma SlotAfter<I>(code: seq<Insn<I>>, l: nat)
    requires l < |code|
    ensures SlotOf(code, l + 1) == SlotOf(code, l) + Span(code[l])
  {
  }

  lemma {:induction false} SlotIncreases<I>(code: seq<Insn<I>>, a: nat, b: nat)
    requires a < b <= |code|
    ensures SlotOf(code, a) + Span(code[a]) <= SlotOf(code, b)
    ensures b - a <= SlotOf(code, b) - SlotOf(code, a)
    decreases b
  {
    if a < b - 1 {
      SlotIncreases(code, a, b - 1);
    }
  }

  lemma SlotInjective<I>(code: seq<Insn<I>>, a: nat, b: nat)
    requires a <= |code| && b <= |code| && SlotOf(code, a) == SlotOf(code, b)
    ensures a == b
  {
    if a < b {
      SlotIncreases(code, a, b);
    } else if b < a {
      SlotIncreases(code, b, a);
    }
  }

  /** The instruction whose slots include `s`. */
  lemma {:induction false} Owner<I>(code: seq<Insn<I>>, s: nat, n: nat) returns (l: nat)
    requires n <= |code| && s < SlotOf(code, n)
    ensures l < n && Owns(code, l, s)
  {
    if s < SlotOf(code, n - 1) {
      l := Owner(code, s, n - 1);
    } else {
      l := n - 1;
    }
  }

  /** Every slot of the text is a start or a continuation, never both. */
  lemma StartOrContinuation<I>(code: seq<Insn<I>>, s: int)
    ensures IsStart(code, s) || IsContinuation(code, s) <==> 0 <= s < SlotCount(code)
    ensures !(IsStart(code, s) && IsContinuation(code, s))
  {
    if 0 <= s < SlotCount(code) {
      var l := Owner(code, s, |code|);
    }
    if IsStart(code, s) {
      var l: nat :| l < |code| && SlotOf(code, l) == s;
      SlotIncreases(code, l, |code|);
      if IsContinuation(code, s) {
        var k: nat :| k < |code| && code[k].opc == LD_DW_IMM && SlotOf(code, k) + 1 == s;
        if k < l {
          SlotIncreases(code, k, l);
        } else if l < k {
          SlotIncreases(code, l, k);
        }
      }
    }
    if IsContinuation(code, s) {
      var k: nat :| k < |code| && code[k].opc == LD_DW_IMM && SlotOf(code, k) + 1 == s;
      SlotIncreases(code, k, |code|);
    }
  }

  // ----- the map -----

  ghost predicate MapRight<I>(m: PcMap, code: seq<Insn<I>>) {
    |m.logicalToSlot| == |code| && |m.slotToLogical| == SlotCount(code)
    && (forall l: nat :: l < |code| ==> m.logicalToSlot[l] == SlotOf(code, l))
    && (forall l: nat, s: nat :: l < |code| && s < |m.slotToLogical| && Owns(code, l, s) ==> m.slotToLogical[s] == Some(l))
  }

  method FromInsns<I>(code: seq<Insn<I>>) returns (m: PcMap)
    ensures MapRight(m, code)
  {
    hide SlotOf;
    SlotZero(code);
    var logicalToSlot: seq<nat> := [];
    var slotToLogical: seq<Option<nat>> := [];
    var slot := 0;
    var logical := 0;
    while logical < |code|
      invariant logical <= |code| && slot == SlotOf(code, logical)
      invariant |logicalToSlot| == logical && |slotToLogical| == slot
      invariant forall l: nat :: l < logical ==> logicalToSlot[l] == SlotOf(code, l)
      invariant forall l: nat, s: nat :: l < logical && s < slot && Owns(code, l, s) ==> slotToLogical[s] == Some(l)
    {
      logicalToSlot := logicalToSlot + [slot];
      var span := Span(code[logical]);
      ghost var before := slotToLogical;
      var s := slot;
      while s < slot + span
        invariant slot <= s <= slot + span && |slotToLogical| == s
        invariant slotToLogical[..slot] == before
        invariant forall k :: slot <= k < s ==> slotToLogical[k] == Some(logical)
      {
        slotToLogical := PadTo(slotToLogical, s);
        slotToLogical := slotToLogical[s := Some(logical)];
        s := s + 1;
      }
      forall l: nat, s: nat | l <= logical && s < slot + span && Owns(code, l, s)
        ensures slotToLogical[s] == Some(l)
      {
        if l < logical {
          SlotIncreases(code, l, logical);
          assert slotToLogical[s] == before[s];
        }
      }
      SlotAfter(code, logical);
      slot := slot + span;
      logical := logical + 1;
    }
    m := PcMap(logicalToSlot, slotToLogical);
  }

  /** Appends `None` until index `s` exists. */
  method PadTo(v: seq<Option<nat>>, s: nat) returns (r: seq<Option<nat>>)
    ensures |r| == (if |v| <= s then s + 1 else |v|) && v <= r
    ensures forall k :: |v| <= k < |r| ==> r[k] == None
  {
    r := v;
    while |r| <= s
      invariant |r| <= s + 1 || r == v
      invariant v <= r && forall k :: |v| <= k < |r| ==> r[k] == None
    {
      r := r + [None];
    }
  }

  function SlotToLogical(m: PcMap, slot: nat): Option<nat> {
    if slot < |m.slotToLogical| then m.slotToLogical[slot] else None
  }

  function LogicalToSlot(m: PcMap, logical: nat): Option<nat> {
    if logical < |m.logicalToSlot| then Some(m.logicalToSlot[logical]) else None
  }

  /** Slot to logical index is defined on the text and inverts logical index to slot; the other
      composite moves a continuation slot back to its start and fixes every start. */
  lemma LookupsInvert<I>(m: PcMap, code: seq<Insn<I>>, s: nat)
    requires MapRight(m, code)
    ensures SlotToLogical(m, s).Some? <==> s < SlotCount(code)
    ensures SlotToLogical(m, s).Some? ==>
              var l := SlotToLogical(m, s).value;
              l < |code| && LogicalToSlot(m, l) == Some(if IsStart(code, s) then s else s - 1)
    ensures forall l: nat :: l < |code| ==>
              LogicalToSlot(m, l).Some? && SlotToLogical(m, LogicalToSlot(m, l).value) == Some(l)
  {
    forall l: nat | l < |code|
      ensures SlotToLogical(m, m.logicalToSlot[l]) == Some(l)
    {
      SlotIncreases(code, l, |code|);
    }
    if s < SlotCount(code) {
      var l := Owner(code, s, |code|);
      assert m.slotToLogical[s] == Some(l);
      if SlotOf(code, l) != s {
        assert IsContinuation(code, s);
        StartOrContinuation(code, s);
      }
    }
  }

  /** A slot resolves to `l` and so does the slot before it exactly on continuations. */
  lemma PreviousSlotShares<I>(m: PcMap, code: seq<Insn<I>>, s: nat)
    requires MapRight(m, code) && s < SlotCount(code)
    ensures s > 0 && SlotToLogical(m, s - 1) == SlotToLogical(m, s) <==> IsContinuation(code, s)
  {
    var l := Owner(code, s, |code|);
    assert m.slotToLogical[s] == Some(l);
    StartOrContinuation(code, s);
    if SlotOf(code, l) == s {
      assert IsStart(code, s);
      if s > 0 {
        var k := Owner(code, s - 1, |code|);
        assert m.slotToLogical[s - 1] == Some(k);
      }
    } else {
      assert IsContinuation(code, s);
      assert m.slotToLogical[s - 1] == Some(l);
    }
  }

  // ----- jumps -----

  function ResolveJumpTarget(m: PcMap, pc: nat, off: int): int {
    match LogicalToSlot(m, pc)
    case Some(slot) =>
      var target := slot + 1 + off;
      if target < 0 then target
      else match SlotToLogical(m, target) {
        case Some(logical) => logical
        case None => target
      }
    case None => pc + 1 + off
  }

  /** A slot counter and a logical counter stand for the same place: the start of one instruction,
      the end of the text, or both outside it. */
  ghost predicate SamePlace<I>(code: seq<Insn<I>>, slot: int, logical: int) {
    (0 <= logical <= |code| && slot == SlotOf(code, logical))
    || (!(0 <= logical < |code|) && !(0 <= slot < SlotCount(code)))
  }

  /** Jump resolution agrees with the slot machine exactly when the target is not the second slot
      of an `lddw`: such a jump resolves to the `lddw` itself. */
  lemma JumpAgreesIff<I>(m: PcMap, code: seq<Insn<I>>, pc: nat, off: int)
    requires MapRight(m, code) && pc < |code|
    ensures SamePlace(code, SlotOf(code, pc) + 1 + off, ResolveJumpTarget(m, pc, off))
            <==> !IsContinuation(code, SlotOf(code, pc) + 1 + off)
    ensures IsContinuation(code, SlotOf(code, pc) + 1 + off) ==>
              SamePlace(code, SlotOf(code, pc) + off, ResolveJumpTarget(m, pc, off))
  {
    hide SlotOf, SamePlace, IsContinuation, MapRight, ResolveJumpTarget, Owns;
    var t := SlotOf(code, pc) + 1 + off;
    ResolvedTo(m, code, pc, off);
    if 0 <= t < SlotCount(code) {
      var l := Owner(code, t, |code|);
      InsidePlace(code, t, l);
    } else {
      OutsidePlace(code, t);
    }
  }

  /** Inside the text an instruction is the place of its first slot only. */
  lemma InsidePlace<I>(code: seq<Insn<I>>, t: int, l: nat)
    requires l < |code| && Owns(code, l, t) && 0 <= t < SlotCount(code)
    ensures SamePlace(code, t, l) <==> !IsContinuation(code, t)
    ensures IsContinuation(code, t) ==> SamePlace(code, t - 1, l)
  {
    hide SlotOf;
    StartOrContinuation(code, t);
    if SlotOf(code, l) == t {
      assert IsStart(code, t);
    } else {
      assert IsContinuation(code, t);
    }
  }

  lemma OutsidePlace<I>(code: seq<Insn<I>>, t: int)
    requires !(0 <= t < SlotCount(code))
    ensures SamePlace(code, t, t) && !IsContinuation(code, t)
  {
    hide SlotOf;
    CountsAgree(code);
    StartOrContinuation(code, t);
  }

  const WIDE: Insn<()> := Insn(LD_DW_IMM, ())
  const JUMP: Insn<()> := Insn(0x05, ())

  /** The condition is needed: in `[lddw, ja -2]` the jump goes to slot 1, which is the second slot
      of the `lddw`, and resolves to the `lddw`. */
  lemma JumpOntoContinuation(m: PcMap)
    requires MapRight(m, [WIDE, JUMP])
    ensures SlotOf([WIDE, JUMP], 1) + 1 - 2 == 1 && IsContinuation([WIDE, JUMP], 1)
    ensures ResolveJumpTarget(m, 1, -2) == 0 && !SamePlace([WIDE, JUMP], 1, 0)
  {
    var code := [WIDE, JUMP];
    assert SlotOf(code, 0) == 0 && SlotOf(code, 1) == 2 && SlotOf(code, 2) == 3;
    hide SlotOf;
    assert code[0].opc == LD_DW_IMM && SlotOf(code, 0) + 1 == 1;
    assert Owns(code, 0, 1);
    ResolvedTo(m, code, 1, -2);
  }

  lemma ResolvedTo<I>(m: PcMap, code: seq<Insn<I>>, pc: nat, off: int)
    requires MapRight(m, code) && pc < |code|
    ensures var t := SlotOf(code, pc) + 1 + off;
            if 0 <= t < SlotCount(code)
            then forall l: nat :: l < |code| && Owns(code, l, t) ==> ResolveJumpTarget(m, pc, off) == l
            else ResolveJumpTarget(m, pc, off) == t
  {
    hide SlotOf, Owns;
    var t := SlotOf(code, pc) + 1 + off;
    forall l: nat | 0 <= t < SlotCount(code) && l < |code| && Owns(code, l, t)
      ensures ResolveJumpTarget(m, pc, off) == l
    {
      assert m.slotToLogical[t] == Some(l);
    }
  }

  lemma CountsAgree<I>(code: seq<Insn<I>>)
    ensures |code| <= SlotCount(code)
  {
    if |code| > 0 {
      SlotIncreases(code, 0, |code|);
    }
  }

  // ----- indirect calls and debug boundaries -----

  /** `resolve_callx_target_logical`: the logical target of an address, or none on its errors. */
  function ResolveCallx(m: PcMap, textOffset: u64, address: u64): Option<nat> {
    if address < textOffset then None
    else
      var slot := (address - textOffset) / INSN_SIZE;
      match SlotToLogical(m, slot)
      case None => None
      case Some(logical) =>
        if slot > 0 && SlotToLogical(m, slot - 1) == Some(logical) then None else Some(logical)
  }

  /** An address resolves exactly when its 8-byte slot starts an instruction, and then to it; the
      address itself need not be aligned. */
  lemma CallxAcceptsStarts<I>(m: PcMap, code: seq<Insn<I>>, text: u64, address: u64, l: nat)
    requires MapRight(m, code)
    ensures ResolveCallx(m, text, address) == Some(l)
            <==> l < |code| && text + 8 * SlotOf(code, l) <= address < text + 8 * SlotOf(code, l) + 8
  {
    if address >= text {
      var slot := (address - text) / INSN_SIZE;
      LookupsInvert(m, code, slot);
      StartOrContinuation(code, slot);
      if slot < SlotCount(code) {
        PreviousSlotShares(m, code, slot);
        var k := SlotToLogical(m, slot).value;
        assert ResolveCallx(m, text, address).Some? <==> IsStart(code, slot);
        if l < |code| && SlotOf(code, l) == slot {
          SlotInjective(code, l, k);
        }
      } else if l < |code| {
        SlotIncreases(code, l, |code|);
      }
    }
  }

  datatype LogicalAddresses = LogicalAddresses(base: u64, textLen: nat, pcs: PcMap)

  function Boundary(a: LogicalAddresses, address: u64): Option<nat> {
    if address < a.base then None
    else
      var offset := address - a.base;
      if offset == a.textLen then Some(|a.pcs.logicalToSlot|)
      else if offset % INSN_SIZE != 0 then None
      else
        var slot := offset / INSN_SIZE;
        match SlotToLogical(a.pcs, slot)
        case None => None
        case Some(logical) => if LogicalToSlot(a.pcs, logical) == Some(slot) then Some(logical) else None
  }

  function Range(a: LogicalAddresses, low: u64, high: u64): Option<(nat, nat)> {
    match Boundary(a, low)
    case None => None
    case Some(start) =>
      match Boundary(a, high)
      case None => None
      case Some(end) => if start < end then Some((start, end)) else None
  }

  ghost predicate AddressesRight<I>(a: LogicalAddresses, code: seq<Insn<I>>) {
    MapRight(a.pcs, code) && a.textLen == 8 * SlotCount(code)
  }

  /** An address is a boundary exactly when it is the first byte of an instruction or the end of
      the text. */
  lemma BoundaryIff<I>(a: LogicalAddresses, code: seq<Insn<I>>, address: u64, l: nat)
    requires AddressesRight(a, code)
    ensures Boundary(a, address) == Some(l)
            <==> l <= |code| && address == a.base + 8 * SlotOf(code, l)
  {
    hide SlotOf;
    if l <= |code| && address == a.base + 8 * SlotOf(code, l) {
      StartIsBoundary(a, code, address, l);
    }
    if address >= a.base && Boundary(a, address) == Some(l) {
      BoundaryMeans(a, code, address, l);
    }
  }

  lemma StartIsBoundary<I>(a: LogicalAddresses, code: seq<Insn<I>>, address: u64, l: nat)
    requires AddressesRight(a, code) && l <= |code| && address == a.base + 8 * SlotOf(code, l)
    ensures Boundary(a, address) == Some(l)
  {
    hide SlotOf;
    if SlotOf(code, l) == SlotCount(code) {
      SlotInjective(code, l, |code|);
    } else {
      assert LogicalToSlot(a.pcs, l) == Some(SlotOf(code, l));
      LookupsInvert(a.pcs, code, SlotOf(code, l));
      hide MapRight, IsStart, LogicalToSlot, SlotToLogical;
      assert (address - a.base) / INSN_SIZE == SlotOf(code, l);
    }
  }

  lemma BoundaryMeans<I>(a: LogicalAddresses, code: seq<Insn<I>>, address: u64, l: nat)
    requires AddressesRight(a, code) && Boundary(a, address) == Some(l)
    ensures l <= |code| && address == a.base + 8 * SlotOf(code, l)
  {
    hide SlotOf;
    var offset := address - a.base;
    assert offset != a.textLen ==> LogicalToSlot(a.pcs, l) == Some(offset / INSN_SIZE);
  }

  /** The two continuation tests agree: on aligned addresses inside the text, an indirect call
      resolves exactly on the boundaries, to the same logical index. */
  lemma CallxIsBoundary<I>(a: LogicalAddresses, code: seq<Insn<I>>, address: u64)
    requires AddressesRight(a, code) && a.base <= address && (address - a.base) % 8 == 0
    requires address != a.base + a.textLen
    ensures ResolveCallx(a.pcs, a.base, address) == Boundary(a, address)
  {
    var x, y := ResolveCallx(a.pcs, a.base, address), Boundary(a, address);
    if x.Some? {
      CallxAcceptsStarts(a.pcs, code, a.base, address, x.value);
      BoundaryIff(a, code, address, x.value);
    }
    if y.Some? {
      BoundaryIff(a, code, address, y.value);
      CallxAcceptsStarts(a.pcs, code, a.base, address, y.value);
    }
  }

  /** A range is accepted exactly when it runs from the first byte of one instruction to the first
      byte of a later one or the end of the text; it then covers whole instructions. */
  lemma RangeIff<I>(a: LogicalAddresses, code: seq<Insn<I>>, low: u64, high: u64, start: nat, end: nat)
    requires AddressesRight(a, code)
    ensures Range(a, low, high) == Some((start, end))
            <==> start < end <= |code| && low == a.base + 8 * SlotOf(code, start)
                 && high == a.base + 8 * SlotOf(code, end)
  {
    BoundaryIff(a, code, low, start);
    BoundaryIff(a, code, high, end);
  }

  // ----- decoding the text -----

  type Text = seq<u8>

  function InsnAt(text: Text, slot: nat): Insn<seq<u8>>
    requires 8 * slot + 8 <= |text|
  {
    Insn(text[8 * slot], text[8 * slot + 1..8 * slot + 8])
  }

  /** No `lddw` from `slot` on is cut by the end of the text or has a malformed second slot. */
  predicate Readable(text: Text, slot: nat)
    requires |text| % 8 == 0
    decreases |text| - 8 * slot
  {
    8 * slot >= |text|
    || (if text[8 * slot] == LD_DW_IMM then
          8 * (slot + 2) <= |text| && text[8 * (slot + 1)..8 * (slot + 1) + 4] == [0, 0, 0, 0]
          && Readable(text, slot + 2)
        else Readable(text, slot + 1))
  }

  ghost predicate Decodes(text: Text, code: seq<Insn<seq<u8>>>) {
    |text| == 8 * SlotCount(code)
    && forall l: nat :: l < |code| ==> 8 * SlotOf(code, l) + 8 <= |text| && code[l] == InsnAt(text, SlotOf(code, l))
  }

  /** The instruction list of a text, or none when an `lddw` is malformed. */
  method Decode(text: Text) returns (r: Option<seq<Insn<seq<u8>>>>)
    requires |text| % 8 == 0
    ensures r.Some? <==> Readable(text, 0)
    ensures r.Some? ==> Decodes(text, r.value)
  {
    hide SlotOf;
    var code := [];
    SlotZero(code);
    var slot := 0;
    while slot < |text| / INSN_SIZE
      invariant slot == SlotCount(code) && 8 * slot <= |text|
      invariant forall l: nat :: l < |code| ==> 8 * SlotOf(code, l) + 8 <= |text| && code[l] == InsnAt(text, SlotOf(code, l))
      invariant Readable(text, 0) <==> Readable(text, slot)
      decreases |text| - slot
    {
      var insn := InsnAt(text, slot);
      if insn.opc == LD_DW_IMM {
        if (slot + 2) * INSN_SIZE > |text| {
          return None;
        }
        if text[(slot + 1) * INSN_SIZE..(slot + 1) * INSN_SIZE + 4] != [0, 0, 0, 0] {
          return None;
        }
        slot := slot + 2;
      } else {
        slot := slot + 1;
      }
      SlotsOfPrefix(code, code + [insn]);
      SlotAfter(code + [insn], |code|);
      hide Readable;
      code := code + [insn];
    }
    r := Some(code);
  }

  /** `LogicalAddresses::new`: fails exactly on an empty or ragged text, an end past the address
      space, or a malformed `lddw`; otherwise the map is that of the decoded text. */
  method NewAddresses(text: Text, base: u64) returns (r: Option<LogicalAddresses>, code: seq<Insn<seq<u8>>>)
    ensures r.Some? <==> |text| > 0 && |text| % 8 == 0 && base + |text| < TWO64 && Readable(text, 0)
    ensures r.Some? ==> AddressesRight(r.value, code) && Decodes(text, code) && r.value.base == base
  {
    hide SlotOf, MapRight, Readable;
    code := [];
    if |text| == 0 || |text| % INSN_SIZE != 0 || base + |text| >= TWO64 {
      return None, code;
    }
    var decoded := Decode(text);
    if decoded.None? {
      return None, code;
    }
    code := decoded.value;
    var pcs := FromInsns(code);
    r := Some(LogicalAddresses(base, |text|, pcs));
  }

  lemma SlotsOfPrefix<I>(before: seq<Insn<I>>, code: seq<Insn<I>>)
    requires before <= code
    ensures forall l: nat :: l <= |before| ==> SlotOf(code, l) == SlotOf(before, l)
  {
    forall l: nat | l <= |before|
      ensures SlotOf(code, l) == SlotOf(before, l)
    {
      SlotOfPrefix(before, code, l);
    }
  }

  lemma {:induction false} SlotOfPrefix<I>(before: seq<Insn<I>>, code: seq<Insn<I>>, l: nat)
    requires before <= code && l <= |before|
    ensures SlotOf(code, l) == SlotOf(before, l)
  {
    if l > 0 {
      SlotOfPrefix(before, code, l - 1);
    }
  }

  // ----- the two machines -----

  /** Where an instruction sends control. Jumps and local calls are relative to the next slot. */
  datatype Move = Next | Jump(off: int) | Call(off: int) | CallAddress(address: u64) | Return | Stop

  datatype State<D> =
    | Running(pc: int, stack: seq<int>, data: D)
    | Stopped(data: D)
    | Fault

  /** What an instruction does to registers and memory, and where it goes. */
  type Semantics<!I, !D> = (Insn<I>, D) -> (D, Move)

  ghost predicate WideFallsThrough<I(!new), D(!new)>(sem: Semantics<I, D>) {
    forall i: Insn<I>, d: D :: i.opc == LD_DW_IMM ==> sem(i, d).1 == Next
  }

  /** The text as the machine sees it: a slot holds an instruction or the tail of an `lddw`. */
  function Cells<I>(code: seq<Insn<I>>): seq<Option<Insn<I>>> {
    if |code| == 0 then []
    else
      var i := code[|code| - 1];
      Cells(code[..|code| - 1]) + (if i.opc == LD_DW_IMM then [Some(i), None] else [Some(i)])
  }

  lemma {:induction false} CellsLayout<I>(code: seq<Insn<I>>)
    ensures |Cells(code)| == SlotCount(code)
    ensures forall l: nat :: l < |code| ==> SlotOf(code, l) < |Cells(code)| && Cells(code)[SlotOf(code, l)] == Some(code[l])
    ensures forall s: nat :: IsContinuation(code, s) ==> s < |Cells(code)| && Cells(code)[s] == None
  {
    hide SlotOf;
    SlotZero(code);
    if |code| > 0 {
      hide IsContinuation;
      CellsLayout(code[..|code| - 1]);
      CellsStarts(code);
      CellsTails(code);
    }
  }

  lemma CellsStarts<I>(code: seq<Insn<I>>)
    requires |code| > 0
    requires var init := code[..|code| - 1];
             |Cells(init)| == SlotCount(init)
             && forall l: nat :: l < |init| ==> SlotOf(init, l) < |Cells(init)| && Cells(init)[SlotOf(init, l)] == Some(init[l])
    ensures |Cells(code)| == SlotCount(code)
    ensures forall l: nat :: l < |code| ==> SlotOf(code, l) < |Cells(code)| && Cells(code)[SlotOf(code, l)] == Some(code[l])
  {
    hide SlotOf;
    var init := code[..|code| - 1];
    SlotsOfPrefix(init, code);
    SlotAfter(code, |init|);
    assert SlotCount(code) == SlotCount(init) + Span(code[|init|]);
    forall l: nat | l < |code|
      ensures SlotOf(code, l) < |Cells(code)| && Cells(code)[SlotOf(code, l)] == Some(code[l])
    {
      if l < |init| {
        assert Cells(init)[SlotOf(init, l)] == Some(init[l]);
      }
    }
  }

  lemma CellsTails<I>(code: seq<Insn<I>>)
    requires |code| > 0
    requires var init := code[..|code| - 1];
             |Cells(init)| == SlotCount(init)
             && forall s: nat :: IsContinuation(init, s) ==> s < |Cells(init)| && Cells(init)[s] == None
    ensures forall s: nat :: IsContinuation(code, s) ==> s < |Cells(code)| && Cells(code)[s] == None
  {
    var init := code[..|code| - 1];
    SlotsOfPrefix(init, code);
    hide SlotOf;
    forall s: nat | IsContinuation(code, s)
      ensures s < |Cells(code)| && Cells(code)[s] == None
    {
      var l: nat :| l < |code| && code[l].opc == LD_DW_IMM && SlotOf(code, l) + 1 == s;
      if l < |init| {
        assert init[l] == code[l];
        assert IsContinuation(init, s);
      }
    }
  }

  /** One step of the virtual machine, on slots. */
  ghost function SlotStep<I, D>(cells: seq<Option<Insn<I>>>, text: u64, sem: Semantics<I, D>, s: State<D>): State<D> {
    if !s.Running? then s
    else if !(0 <= s.pc < |cells|) || cells[s.pc].None? then Fault
    else
      var insn := cells[s.pc].value;
      var (data, move) := sem(insn, s.data);
      match move
      case Next => Running(s.pc + Span(insn), s.stack, data)
      case Jump(off) => Running(s.pc + 1 + off, s.stack, data)
      case Call(off) => Running(s.pc + 1 + off, s.stack + [s.pc + 1], data)
      case CallAddress(address) =>
        var slot := (address - text) / INSN_SIZE;
        if 0 <= slot < |cells| && cells[slot].Some? then Running(slot, s.stack + [s.pc + 1], data) else Fault
      case Return => Resume(s.stack, data)
      case Stop => Stopped(data)
  }

  /** One step of the analyses' machine, on logical indices. */
  ghost function LogicalStep<I, D>(code: seq<Insn<I>>, m: PcMap, text: u64, sem: Semantics<I, D>, s: State<D>): State<D> {
    if !s.Running? then s
    else if !(0 <= s.pc < |code|) then Fault
    else
      var (data, move) := sem(code[s.pc], s.data);
      match move
      case Next => Running(s.pc + 1, s.stack, data)
      case Jump(off) => Running(ResolveJumpTarget(m, s.pc, off), s.stack, data)
      case Call(off) => Running(ResolveJumpTarget(m, s.pc, off), s.stack + [s.pc + 1], data)
      case CallAddress(address) =>
        (match ResolveCallx(m, text, address)
         case None => Fault
         case Some(target) => Running(target, s.stack + [s.pc + 1], data))
      case Return => Resume(s.stack, data)
      case Stop => Stopped(data)
  }

  function Resume<D>(stack: seq<int>, data: D): State<D> {
    if |stack| == 0 then Stopped(data) else Running(stack[|stack| - 1], stack[..|stack| - 1], data)
  }

  ghost function SlotRun<I, D>(cells: seq<Option<Insn<I>>>, text: u64, sem: Semantics<I, D>, s: State<D>, n: nat): State<D> {
    if n == 0 then s else SlotStep(cells, text, sem, SlotRun(cells, text, sem, s, n - 1))
  }

  ghost function LogicalRun<I, D>(code: seq<Insn<I>>, m: PcMap, text: u64, sem: Semantics<I, D>, s: State<D>, n: nat): State<D> {
    if n == 0 then s else LogicalStep(code, m, text, sem, LogicalRun(code, m, text, sem, s, n - 1))
  }

  ghost predicate SameState<I, D>(code: seq<Insn<I>>, s: State<D>, t: State<D>) {
    match s
    case Running(pc, stack, data) =>
      t.Running? && t.data == data && SamePlace(code, pc, t.pc) && |stack| == |t.stack|
      && (forall i :: 0 <= i < |stack| ==> SamePlace(code, stack[i], t.stack[i]))
    case _ => s == t
  }

  ghost predicate OnContinuation<I, D>(code: seq<Insn<I>>, s: State<D>) {
    s.Running? && IsContinuation(code, s.pc)
  }

  /** From states in the same place, one step leads to the same place, unless the slot machine
      lands on the second slot of an `lddw`. */
  lemma StepAgrees<I(!new), D(!new)>(code: seq<Insn<I>>, m: PcMap, text: u64, sem: Semantics<I, D>, s: State<D>, t: State<D>)
    requires MapRight(m, code) && WideFallsThrough(sem) && SameState(code, s, t)
    requires !OnContinuation(code, SlotStep(Cells(code), text, sem, s))
    ensures SameState(code, SlotStep(Cells(code), text, sem, s), LogicalStep(code, m, text, sem, t))
  {
    hide SlotOf, Cells, IsContinuation, WideFallsThrough, MapRight;
    CellsLayout(code);
    CountsAgree(code);
    if s.Running? && 0 <= t.pc < |code| {
      assert Cells(code)[SlotOf(code, t.pc)] == Some(code[t.pc]);
      RunningAgrees(code, m, text, sem, s, t);
    }
  }

  lemma RunningAgrees<I(!new), D(!new)>(code: seq<Insn<I>>, m: PcMap, text: u64, sem: Semantics<I, D>, s: State<D>, t: State<D>)
    requires MapRight(m, code) && WideFallsThrough(sem) && SameState(code, s, t)
    requires s.Running? && 0 <= t.pc < |code| && s.pc == SlotOf(code, t.pc)
    requires 0 <= s.pc < |Cells(code)| && Cells(code)[s.pc] == Some(code[t.pc])
    requires !OnContinuation(code, SlotStep(Cells(code), text, sem, s))
    ensures SameState(code, SlotStep(Cells(code), text, sem, s), LogicalStep(code, m, text, sem, t))
  {
    hide SlotOf, Cells, MapRight, ResolveJumpTarget, ResolveCallx, IsContinuation;
    SlotAfter(code, t.pc);
    var insn := code[t.pc];
    var move: Move := sem(insn, s.data).1;
    assert SlotOf(code, t.pc + 1) == s.pc + Span(insn);
    assert !move.Next? ==> SamePlace(code, s.pc + 1, t.pc + 1);
    if move.Jump? || move.Call? {
      JumpAgreesIff(m, code, t.pc, move.off);
    } else if move.CallAddress? {
      CallxAgrees(m, code, text, move.address);
    }
    hide WideFallsThrough, SlotCount;
  }

  lemma CallxAgrees<I>(m: PcMap, code: seq<Insn<I>>, text: u64, address: u64)
    requires MapRight(m, code)
    ensures var slot := (address - text) / INSN_SIZE;
            var target := ResolveCallx(m, text, address);
            if 0 <= slot < |Cells(code)| && Cells(code)[slot].Some?
            then target.Some? && target.value < |code| && SlotOf(code, target.value) == slot
            else target.None?
  {
    var slot := (address - text) / INSN_SIZE;
    var target := ResolveCallx(m, text, address);
    CellsLayout(code);
    if target.Some? {
      CallxAcceptsStarts(m, code, text, address, target.value);
    }
    StartOrContinuation(code, slot);
    if IsStart(code, slot) {
      var l: nat :| l < |code| && SlotOf(code, l) == slot;
      CallxAcceptsStarts(m, code, text, address, l);
    }
  }

  /** The two machines are in the same place after each of the first `n` steps. */
  ghost predicate Together<I, D>(code: seq<Insn<I>>, m: PcMap, text: u64, sem: Semantics<I, D>, s: State<D>, t: State<D>, n: nat) {
    forall k: nat :: k <= n ==> SameState(code, SlotRun(Cells(code), text, sem, s, k), LogicalRun(code, m, text, sem, t, k))
  }

  /** The slot machine stands on no continuation slot in its first `n` steps. */
  ghost predicate OnStarts<I, D>(code: seq<Insn<I>>, text: u64, sem: Semantics<I, D>, s: State<D>, n: nat) {
    forall k: nat :: k <= n ==> !OnContinuation(code, SlotRun(Cells(code), text, sem, s, k))
  }

  /** The two machines are bisimilar: started in the same place they are in the same place after
      every number of steps, for every instruction semantics, exactly as long as the slot machine
      does not stand on the second slot of an `lddw`. */
  lemma Bisimilar<I(!new), D(!new)>(
    code: seq<Insn<I>>, m: PcMap, text: u64, sem: Semantics<I, D>, s: State<D>, t: State<D>, n: nat)
    requires MapRight(m, code) && WideFallsThrough(sem) && SameState(code, s, t)
    ensures Together(code, m, text, sem, s, t, n) <==> OnStarts(code, text, sem, s, n)
  {
    hide MapRight, OnContinuation, SameState, WideFallsThrough, SlotRun, LogicalRun, Cells;
    if Together(code, m, text, sem, s, t, n) {
      forall k: nat | k <= n
        ensures !OnContinuation(code, SlotRun(Cells(code), text, sem, s, k))
      {
        NoPlaceOnContinuation(code, SlotRun(Cells(code), text, sem, s, k), LogicalRun(code, m, text, sem, t, k));
      }
    }
    if OnStarts(code, text, sem, s, n) {
      RunAgrees(code, m, text, sem, s, t, n);
    }
  }

  lemma {:induction false} RunAgrees<I(!new), D(!new)>(
    code: seq<Insn<I>>, m: PcMap, text: u64, sem: Semantics<I, D>, s: State<D>, t: State<D>, n: nat)
    requires MapRight(m, code) && WideFallsThrough(sem) && SameState(code, s, t)
    requires OnStarts(code, text, sem, s, n)
    ensures Together(code, m, text, sem, s, t, n)
  {
    hide MapRight, OnContinuation, SameState, WideFallsThrough, SlotStep, LogicalStep, Cells;
    if n > 0 {
      RunAgrees(code, m, text, sem, s, t, n - 1);
      assert !OnContinuation(code, SlotRun(Cells(code), text, sem, s, n));
      StepAgrees(code, m, text, sem, SlotRun(Cells(code), text, sem, s, n - 1), LogicalRun(code, m, text, sem, t, n - 1));
    }
  }

  lemma NoPlaceOnContinuation<I, D>(code: seq<Insn<I>>, s: State<D>, t: State<D>)
    requires SameState(code, s, t)
    ensures !OnContinuation(code, s)
  {
    hide SlotOf;
    if s.Running? {
      StartOrContinuation(code, s.pc);
      if 0 <= t.pc < |code| && s.pc == SlotOf(code, t.pc) {
        assert IsStart(code, s.pc);
      }
    }
  }

  // ----- the static condition -----

  /** A place of the analyses' machine is never a continuation slot. */
  lemma PlaceIsStart<I>(code: seq<Insn<I>>, slot: int, logical: int)
    requires SamePlace(code, slot, logical)
    ensures !IsContinuation(code, slot)
  {
    hide SlotOf;
    StartOrContinuation(code, slot);
    if 0 <= logical < |code| && slot == SlotOf(code, logical) {
      assert IsStart(code, slot);
    }
  }

  /** The offset of a jump or local call. */
  function Offset(move: Move): Option<int> {
    if move.Jump? || move.Call? then Some(move.off) else None
  }

  /** No jump or local call of the text has an offset to a continuation slot. */
  ghost predicate OffsetsOnStarts<I(!new), D(!new)>(code: seq<Insn<I>>, sem: Semantics<I, D>) {
    forall l: nat, d: D :: l < |code| && Offset(sem(code[l], d).1).Some? ==>
                             !IsContinuation(code, SlotOf(code, l) + 1 + Offset(sem(code[l], d).1).value)
  }

  lemma StepOnStart<I(!new), D(!new)>(code: seq<Insn<I>>, text: u64, sem: Semantics<I, D>, s: State<D>, t: State<D>)
    requires WideFallsThrough(sem) && SameState(code, s, t) && OffsetsOnStarts(code, sem)
    ensures !OnContinuation(code, SlotStep(Cells(code), text, sem, s))
  {
    hide SlotOf, Cells, IsContinuation, WideFallsThrough, OffsetsOnStarts;
    CellsLayout(code);
    CountsAgree(code);
    if s.Running? && 0 <= s.pc < |Cells(code)| && 0 <= t.pc < |code| {
      assert Cells(code)[SlotOf(code, t.pc)] == Some(code[t.pc]);
      MoveOnStart(code, text, sem, s, t);
    }
  }

  lemma MoveOnStart<I(!new), D(!new)>(code: seq<Insn<I>>, text: u64, sem: Semantics<I, D>, s: State<D>, t: State<D>)
    requires WideFallsThrough(sem) && SameState(code, s, t) && OffsetsOnStarts(code, sem)
    requires s.Running? && 0 <= t.pc < |code| && s.pc == SlotOf(code, t.pc)
    requires 0 <= s.pc < |Cells(code)| && Cells(code)[s.pc] == Some(code[t.pc])
    ensures !OnContinuation(code, SlotStep(Cells(code), text, sem, s))
  {
    hide SlotOf, Cells, IsContinuation, WideFallsThrough;
    SlotAfter(code, t.pc);
    var move: Move := sem(code[t.pc], s.data).1;
    match move
    case Next =>
      PlaceIsStart(code, s.pc + Span(code[t.pc]), t.pc + 1);
    case CallAddress(address) =>
      CellsLayout(code);
    case Return =>
      if |s.stack| > 0 {
        var top := |s.stack| - 1;
        PlaceIsStart(code, s.stack[top], t.stack[top]);
      }
    case _ =>
  }

  lemma {:induction false} RunOnStarts<I(!new), D(!new)>(
    code: seq<Insn<I>>, m: PcMap, text: u64, sem: Semantics<I, D>, s: State<D>, t: State<D>, n: nat)
    requires MapRight(m, code) && WideFallsThrough(sem) && SameState(code, s, t) && OffsetsOnStarts(code, sem)
    ensures Together(code, m, text, sem, s, t, n)
  {
    hide MapRight, OnContinuation, SameState, WideFallsThrough, OffsetsOnStarts, SlotStep, LogicalStep, Cells;
    if n > 0 {
      RunOnStarts(code, m, text, sem, s, t, n - 1);
      var s', t' := SlotRun(Cells(code), text, sem, s, n - 1), LogicalRun(code, m, text, sem, t, n - 1);
      StepOnStart(code, text, sem, s', t');
      StepAgrees(code, m, text, sem, s', t');
    }
  }

  /** The machines stay together from every start and for every number of steps. */
  ghost predicate AlwaysTogether<I(!new), D(!new)>(code: seq<Insn<I>>, m: PcMap, text: u64, sem: Semantics<I, D>) {
    forall s: State<D>, t: State<D>, n: nat {:trigger Together(code, m, text, sem, s, t, n)} ::
      SameState(code, s, t) ==> Together(code, m, text, sem, s, t, n)
  }

  /** A jump onto a continuation slot separates the machines in one step. */
  lemma JumpSeparates<I(!new), D(!new)>(code: seq<Insn<I>>, m: PcMap, text: u64, sem: Semantics<I, D>, l: nat, d: D)
    requires l < |code| && Offset(sem(code[l], d).1).Some?
    requires IsContinuation(code, SlotOf(code, l) + 1 + Offset(sem(code[l], d).1).value)
    ensures SameState(code, Running(SlotOf(code, l), [], d), Running(l, [], d))
    ensures !Together(code, m, text, sem, Running(SlotOf(code, l), [], d), Running(l, [], d), 1)
  {
    hide SlotOf, IsContinuation, Cells, LogicalStep;
    CellsLayout(code);
    var s, t := Running(SlotOf(code, l), [], d), Running(l, [], d);
    assert SlotRun(Cells(code), text, sem, s, 0) == s && LogicalRun(code, m, text, sem, t, 0) == t;
    var s' := SlotRun(Cells(code), text, sem, s, 1);
    assert Cells(code)[s.pc] == Some(code[l]);
    assert s' == SlotStep(Cells(code), text, sem, s);
    assert OnContinuation(code, s');
    if Together(code, m, text, sem, s, t, 1) {
      NoPlaceOnContinuation(code, s', LogicalRun(code, m, text, sem, t, 1));
    }
  }

  /** What the text alone decides: the machines stay together in every run exactly when no jump or
      local call of the text has an offset onto the second slot of an `lddw`. */
  lemma AlwaysTogetherIff<I(!new), D(!new)>(code: seq<Insn<I>>, m: PcMap, text: u64, sem: Semantics<I, D>)
    requires MapRight(m, code) && WideFallsThrough(sem)
    ensures AlwaysTogether(code, m, text, sem) <==> OffsetsOnStarts(code, sem)
  {
    hide MapRight, WideFallsThrough, Together, SameState, IsContinuation, SlotOf, Offset;
    if AlwaysTogether(code, m, text, sem) {
      forall l: nat, d: D | l < |code| && Offset(sem(code[l], d).1).Some?
        ensures !IsContinuation(code, SlotOf(code, l) + 1 + Offset(sem(code[l], d).1).value)
      {
        if IsContinuation(code, SlotOf(code, l) + 1 + Offset(sem(code[l], d).1).value) {
          JumpSeparates(code, m, text, sem, l, d);
        }
      }
    }
    if OffsetsOnStarts(code, sem) {
      forall s: State<D>, t: State<D>, n: nat | SameState(code, s, t)
        ensures Together(code, m, text, sem, s, t, n)
      {
        RunOnStarts(code, m, text, sem, s, t, n);
      }
    }
  }
}
