/** The walks over the input buffer: `serialize_parameters` appends record by record, the parser
    advances a cursor, and `accounts_for_instruction` reuses earlier entries for duplicates. Each
    is proved equal to the position-based description in `AccountLayout`. */
module AccountBuffer {
  import opened Words
  import opened AccountLayout
  import opened AccountRoundTrip

  // ----- duplicates -----

  /** For each reference, the earlier index of its account, if there is one. */
  function DupOf(metas: seq<Meta>, i: nat): Option<nat>
    requires i < |metas|
  {
    if First(metas, i) < i then Some(First(metas, i)) else None
  }

  /** `j` is the first occurrence of reference `i`'s account. */
  lemma FirstIs(metas: seq<Meta>, i: nat, j: nat)
    requires j <= i < |metas| && metas[j].key == metas[i].key
    requires forall k :: 0 <= k < j ==> metas[k].key != metas[i].key
    ensures First(metas, i) == j
  {
    hide FirstFrom;
  }

  lemma FirstOfFirst(metas: seq<Meta>, i: nat)
    requires i < |metas|
    ensures First(metas, First(metas, i)) == First(metas, i)
  {
    hide FirstFrom;
    FirstIs(metas, First(metas, i), First(metas, i));
  }

  /** The keys of the first `i` references, each with its first index. */
  ghost predicate SeenRight(metas: seq<Meta>, seen: map<Pubkey, nat>, i: nat) {
    i <= |metas|
    && (forall k :: 0 <= k < i ==> metas[k].key in seen)
    && (forall key :: key in seen ==> seen[key] < i && metas[seen[key]].key == key)
    && (forall key, k :: key in seen && 0 <= k < seen[key] ==> metas[k].key != key)
  }

  method DupMap(metas: seq<Meta>) returns (dups: seq<Option<nat>>)
    ensures |dups| == |metas|
    ensures forall i :: 0 <= i < |metas| ==> dups[i] == DupOf(metas, i)
  {
    hide First;
    var firstSeen: map<Pubkey, nat> := map[];
    dups := [];
    var i := 0;
    while i < |metas|
      invariant i == |dups| <= |metas|
      invariant forall k :: 0 <= k < i ==> dups[k] == DupOf(metas, k)
      invariant SeenRight(metas, firstSeen, i)
    {
      var key := metas[i].key;
      if key in firstSeen {
        FirstIs(metas, i, firstSeen[key]);
        dups := dups + [Some(firstSeen[key])];
      } else {
        FirstIs(metas, i, i);
        dups := dups + [None];
        firstSeen := firstSeen[key := i];
      }
      i := i + 1;
    }
  }

  // ----- serializing -----

  lemma {:induction false} FirstMissingStays(metas: seq<Meta>, accounts: Accounts, i: nat, n: nat)
    requires i <= n <= |metas| && FirstMissing(metas, accounts, i).Some?
    ensures FirstMissing(metas, accounts, n) == FirstMissing(metas, accounts, i)
    decreases n
  {
    hide Find;
    if i < n {
      FirstMissingStays(metas, accounts, i, n - 1);
    }
  }

  /** Appends the full record of one account. */
  method WriteAccount(b: seq<u8>, metas: seq<Meta>, meta: Meta, account: Account) returns (buf: seq<u8>)
    ensures buf == b + AccountBytes(metas, meta.key, account)
  {
    hide AnySigner, AnyWritable, Le8, Zeros, Pad;
    buf := b + [NON_DUP_MARKER];
    buf := buf + [Flag(AnySigner(metas, meta.key))];
    buf := buf + [Flag(AnyWritable(metas, meta.key))];
    buf := buf + [Flag(account.executable)];
    buf := buf + Zeros(4);
    buf := buf + meta.key;
    buf := buf + account.owner;
    buf := buf + Le8(account.lamports);
    buf := buf + Le8(|account.data|);
    assert buf == b + HeaderBytes(metas, meta.key, account);
    buf := buf + account.data;
    buf := buf + Zeros(Pad(|account.data|) + MAX_PERMITTED_DATA_INCREASE);
    buf := buf + Le8(TWO64 - 1);
  }

  lemma PrefixStarts(metas: seq<Meta>, accounts: Accounts)
    ensures FirstMissing(metas, accounts, 0).None? && Prefix(metas, accounts, 0) == Le8(|metas|)
  {
  }

  lemma MissingAt(metas: seq<Meta>, accounts: Accounts, i: nat)
    requires i < |metas| && FirstMissing(metas, accounts, i).None? && Find(accounts, metas[i].key).None?
    ensures FirstMissing(metas, accounts, |metas|) == Some(metas[i].key)
  {
    hide Find;
    assert FirstMissing(metas, accounts, i + 1) == Some(metas[i].key);
    FirstMissingStays(metas, accounts, i + 1, |metas|);
  }

  /** A duplicate's key was already found at its first occurrence. */
  lemma DuplicateFound(metas: seq<Meta>, accounts: Accounts, i: nat)
    requires i < |metas| && FirstMissing(metas, accounts, i).None? && First(metas, i) < i
    ensures Find(accounts, metas[i].key).Some?
  {
    hide Find, FirstFrom;
    assert metas[First(metas, i)].key == metas[i].key;
  }

  ghost predicate RecordsRight(metas: seq<Meta>, accounts: Accounts, records: seq<nat>) {
    |records| <= |metas|
    && forall k :: 0 <= k < |records| ==> records[k] == Offset(metas, accounts, First(metas, k))
  }

  lemma PrefixStep(metas: seq<Meta>, accounts: Accounts, i: nat)
    requires i < |metas| && FirstMissing(metas, accounts, i).None? && Find(accounts, metas[i].key).Some?
    ensures FirstMissing(metas, accounts, i + 1).None?
    ensures Prefix(metas, accounts, i + 1) == Prefix(metas, accounts, i) +
              if First(metas, i) < i then [First(metas, i) % 256] + Zeros(7)
              else AccountBytes(metas, metas[i].key, Find(accounts, metas[i].key).value)
  {
    hide Find, FirstFrom, AccountBytes, Zeros;
    assert RecordBytes(metas, accounts, i) == if First(metas, i) < i then [First(metas, i) % 256] + Zeros(7)
              else AccountBytes(metas, metas[i].key, Find(accounts, metas[i].key).value);
  }

  /** The count word, the records and each record's offset. */
  method WriteRecords(metas: seq<Meta>, accounts: Accounts)
    returns (missing: Option<Pubkey>, buf: seq<u8>, records: seq<nat>)
    ensures missing == FirstMissing(metas, accounts, |metas|)
    ensures missing.None? ==> buf == Prefix(metas, accounts, |metas|)
    ensures missing.None? ==> |records| == |metas| && RecordsRight(metas, accounts, records)
  {
    hide Find, FirstFrom, FirstMissing, AccountBytes, Zeros, RecordLen, RecordBytes, Prefix, Offset;
    PrefixStarts(metas, accounts);
    buf := Le8(|metas|);
    records := [];
    var seen := DupMap(metas);
    var i := 0;
    while i < |metas|
      invariant i == |records| && RecordsRight(metas, accounts, records)
      invariant FirstMissing(metas, accounts, i).None?
      invariant buf == Prefix(metas, accounts, i)
    {
      var meta := metas[i];
      if seen[i].Some? {
        var j := seen[i].value;
        records := records + [records[j]];
        FirstOfFirst(metas, i);
        DuplicateFound(metas, accounts, i);
        PrefixStep(metas, accounts, i);
        buf := buf + ([j % 256] + Zeros(7));
      } else {
        records := records + [|buf|];
        var account := Find(accounts, meta.key);
        if account.None? {
          MissingAt(metas, accounts, i);
          return Some(meta.key), buf, records;
        }
        PrefixStep(metas, accounts, i);
        buf := WriteAccount(buf, metas, meta, account.value);
      }
      i := i + 1;
    }
    missing := None;
  }

  method SerializeParameters(ix: Instruction, accounts: Accounts, programId: Pubkey)
    returns (r: Result<seq<u8>, SerializeError>)
    ensures r == Serialized(ix, accounts, programId)
  {
    hide Find, First, Prefix, Offset, Zeros, Le8, FirstMissing, Pad;
    var metas := ix.accounts;
    if |metas| > 255 {
      return Err(TooManyAccounts(|metas|));
    }
    var missing, buf, records := WriteRecords(metas, accounts);
    if missing.Some? {
      return Err(MissingAccount(missing.value));
    }
    buf := buf + Le8(|ix.data|);
    buf := buf + ix.data;
    buf := buf + programId;
    assert buf == Body(ix, accounts, programId);
    buf := buf + Zeros(Pad(|buf|));
    var base := buf;
    var k := 0;
    while k < |records|
      invariant k <= |records|
      invariant buf == base + Pointers(metas, accounts, k)
    {
      buf := buf + Le8(MM_INPUT_START + records[k]);
      k := k + 1;
    }
    r := Ok(buf);
  }

  /** `out` lists the accounts of the first references, each found by its key. */
  ghost predicate Listed(metas: seq<Meta>, accounts: Accounts, out: Accounts) {
    |out| <= |metas|
    && forall k :: 0 <= k < |out| ==> out[k].0 == metas[k].key && Find(accounts, metas[k].key) == Some(out[k].1)
  }

  lemma ListedAll(metas: seq<Meta>, accounts: Accounts, out: Accounts)
    requires Listed(metas, accounts, out) && |out| == |metas|
    ensures AccountsFor(metas, accounts) == Ok(out)
  {
    hide Find, FirstMissing;
    assert AccountsFor(metas, accounts).value == out;
  }

  lemma ListedUntil(metas: seq<Meta>, accounts: Accounts, out: Accounts)
    requires Listed(metas, accounts, out) && |out| < |metas| && Find(accounts, metas[|out|].key).None?
    ensures AccountsFor(metas, accounts) == Err(MissingAccount(metas[|out|].key))
  {
    hide Find;
    assert FirstMissing(metas, accounts, |out|).None?;
    MissingAt(metas, accounts, |out|);
  }

  /** The instruction-ordered account list; a duplicate reuses its first occurrence's entry. */
  method AccountsForInstruction(metas: seq<Meta>, accounts: Accounts) returns (r: Result<Accounts, SerializeError>)
    ensures r == AccountsFor(metas, accounts)
  {
    hide Find, FirstFrom, AccountsFor;
    var dupOf := DupMap(metas);
    var out: Accounts := [];
    var i := 0;
    while i < |metas|
      invariant i == |out| && Listed(metas, accounts, out)
    {
      var meta := metas[i];
      var account;
      if dupOf[i].Some? {
        account := Some(out[dupOf[i].value].1);
      } else {
        account := Find(accounts, meta.key);
      }
      assert account == Find(accounts, meta.key);
      if account.None? {
        ListedUntil(metas, accounts, out);
        return Err(MissingAccount(meta.key));
      }
      out := out + [(meta.key, account.value)];
      i := i + 1;
    }
    ListedAll(metas, accounts, out);
    r := Ok(out);
  }

  // ----- parsing -----

  /** A reading position in a fixed buffer. A read that runs past the end fails and stays put. */
  class ByteCursor {
    const buf: Data
    var pos: nat

    constructor (buf: Data)
      ensures this.buf == buf && pos == 0
    {
      this.buf := buf;
      pos := 0;
    }

    method Take(n: nat) returns (r: Option<seq<u8>>)
      modifies this
      ensures old(pos) + n <= |buf| ==> r == Some(buf[old(pos)..old(pos) + n]) && pos == old(pos) + n
      ensures old(pos) + n > |buf| ==> r == None && pos == old(pos)
    {
      if pos + n > |buf| {
        return None;
      }
      r := Some(buf[pos..pos + n]);
      pos := pos + n;
    }

    method Skip(n: nat) returns (ok: bool)
      modifies this
      ensures ok == (old(pos) + n <= |buf|)
      ensures pos == if ok then old(pos) + n else old(pos)
    {
      var s := Take(n);
      ok := s.Some?;
    }

    method U64() returns (r: Option<u64>)
      modifies this
      ensures old(pos) + 8 <= |buf| ==> r == Some(WordAt(buf, old(pos))) && pos == old(pos) + 8
      ensures old(pos) + 8 > |buf| ==> r == None && pos == old(pos)
    {
      var b := Take(8);
      if b.None? {
        return None;
      }
      assert b.value[0..8] == buf[old(pos)..old(pos) + 8];
      r := Some(WordAt(b.value, 0));
    }

    /** Fills `dst` from the next bytes. */
    method ReadInto(dst: array<u8>) returns (ok: bool)
      modifies this, dst
      ensures ok == (old(pos) + dst.Length <= |buf|)
      ensures ok ==> dst[..] == buf[old(pos)..old(pos) + dst.Length] && pos == old(pos) + dst.Length
      ensures !ok ==> pos == old(pos) && dst[..] == old(dst[..])
    {
      var s := Take(dst.Length);
      if s.None? {
        return false;
      }
      var src := s.value;
      var i := 0;
      while i < dst.Length
        invariant i <= dst.Length && dst[..i] == src[..i]
        modifies dst
      {
        dst[i] := src[i];
        i := i + 1;
      }
      ok := true;
    }
  }

  /** What parsing the record at `p` gives, and why it fails. */
  ghost predicate RecordParsed(b: Data, p: nat, key: Pubkey, pre: Accounts, r: Result<(Account, u64), DeserializeError>) {
    if p + 88 > |b| then r == Err(Truncated)
    else match Find(pre, key)
      case None => r == Err(UnknownPubkeyInInstruction(key))
      case Some(a) =>
        if p + 96 + AreaLen(|a.data|) > |b| then r == Err(Truncated) else r == Ok(AccountAt(b, p, a))
  }

  /** The parser's own padding formula is the serializer's. */
  lemma PadAgain(len: nat)
    ensures (8 - len % 8) % 8 == Pad(len)
  {
  }

  /** Parses a full record whose first byte has been skipped. */
  method ParseNonDupRecord(c: ByteCursor, key: Pubkey, pre: Accounts) returns (r: Result<(Account, u64), DeserializeError>)
    requires 1 <= c.pos <= |c.buf|
    modifies c
    ensures RecordParsed(c.buf, old(c.pos) - 1, key, pre, r)
    ensures r.Ok? ==> Find(pre, key).Some? && c.pos == old(c.pos) + 95 + AreaLen(|Find(pre, key).value.data|)
  {
    hide Find, WordAt, Pad;
    var ok := c.Skip(7 + 32);
    if !ok {
      return Err(Truncated);
    }
    var ownerBytes := new u8[32](i => 0);
    ok := c.ReadInto(ownerBytes);
    if !ok {
      return Err(Truncated);
    }
    var owner: Pubkey := ownerBytes[..];
    var lamports := c.U64();
    if lamports.None? {
      return Err(Truncated);
    }
    var rawLen := c.U64();
    if rawLen.None? {
      return Err(Truncated);
    }
    var found := Find(pre, key);
    if found.None? {
      return Err(UnknownPubkeyInInstruction(key));
    }
    var preLen := |found.value.data|;
    var room := preLen + MAX_PERMITTED_DATA_INCREASE;
    var dataLen := Min(rawLen.value, room);
    var data := c.Take(dataLen);
    if data.None? {
      return Err(Truncated);
    }
    var padding := (8 - preLen % 8) % 8;
    PadAgain(preLen);
    ok := c.Skip(room + padding - dataLen);
    if !ok {
      return Err(Truncated);
    }
    ok := c.Skip(8);
    if !ok {
      return Err(Truncated);
    }
    r := Ok((Account(lamports.value, data.value, owner, found.value.executable, found.value.rentEpoch), rawLen.value));
  }

  /** Slot `k` holds the account read at its record, when `k` is a first occurrence. */
  ghost predicate SlotRead(b: Data, metas: seq<Meta>, pre: Accounts, slots: seq<Option<(Account, u64)>>, k: nat)
    requires k < |metas| == |slots|
  {
    First(metas, k) == k ==>
      Find(pre, metas[k].key).Some?
      && var a := Find(pre, metas[k].key).value;
         Offset(metas, pre, k) + 96 + AreaLen(|a.data|) <= |b|
         && slots[k] == Some(AccountAt(b, Offset(metas, pre, k), a))
  }

  lemma {:induction false} FirstFaultStays(b: Data, metas: seq<Meta>, pre: Accounts, i: nat, n: nat)
    requires i <= n <= |metas| && FirstFault(b, metas, pre, i).Some?
    ensures FirstFault(b, metas, pre, n) == FirstFault(b, metas, pre, i)
    decreases n
  {
    hide RecordFault;
    if i < n {
      FirstFaultStays(b, metas, pre, i, n - 1);
    }
  }

  /** One record of the walk, from its offset to the next. */
  method ReadRecord(c: ByteCursor, metas: seq<Meta>, pre: Accounts, dup: bool, i: nat)
    returns (r: Result<Option<(Account, u64)>, DeserializeError>)
    requires i < |metas| && c.pos == Offset(metas, pre, i) <= |c.buf| && dup == (First(metas, i) < i)
    modifies c
    ensures r.Err? <==> RecordFault(c.buf, metas, pre, i).Some?
    ensures r.Err? ==> RecordFault(c.buf, metas, pre, i) == Some(r.error)
    ensures r.Ok? ==> c.pos == Offset(metas, pre, i + 1) <= |c.buf|
    ensures r.Ok? ==> (dup <==> r.value.None?)
    ensures r.Ok? && !dup ==>
              Find(pre, metas[i].key).Some?
              && var a := Find(pre, metas[i].key).value;
                 Offset(metas, pre, i) + 96 + AreaLen(|a.data|) <= |c.buf|
                 && r.value == Some(AccountAt(c.buf, Offset(metas, pre, i), a))
  {
    hide Find, FirstFrom, AccountAt, AreaLen;
    assert Offset(metas, pre, i + 1) == Offset(metas, pre, i) + RecordLen(metas, pre, i);
    if dup {
      var ok := c.Skip(8);
      if !ok {
        return Err(Truncated);
      }
      r := Ok(None);
    } else {
      var ok := c.Skip(1);
      if !ok {
        return Err(Truncated);
      }
      var updated := ParseNonDupRecord(c, metas[i].key, pre);
      if updated.Err? {
        return Err(updated.error);
      }
      r := Ok(Some(updated.value));
    }
  }

  /** Walks the records, filling one slot per reference. */
  method ReadRecords(c: ByteCursor, metas: seq<Meta>, pre: Accounts, dupOf: seq<Option<nat>>)
    returns (fault: Option<DeserializeError>, slots: seq<Option<(Account, u64)>>)
    requires c.pos == 8 <= |c.buf| && |dupOf| == |metas|
    requires forall i :: 0 <= i < |metas| ==> dupOf[i] == DupOf(metas, i)
    modifies c
    ensures fault == FirstFault(c.buf, metas, pre, |metas|)
    ensures |slots| == |metas|
    ensures fault.None? ==> c.pos == Offset(metas, pre, |metas|) <= |c.buf|
    ensures fault.None? ==> forall k: nat :: k < |metas| ==> SlotRead(c.buf, metas, pre, slots, k)
  {
    hide Find, First, RecordFault, AccountAt;
    slots := seq(|metas|, i => None);
    var i := 0;
    while i < |metas|
      invariant i <= |metas| == |slots|
      invariant c.pos == Offset(metas, pre, i) <= |c.buf|
      invariant FirstFault(c.buf, metas, pre, i).None?
      invariant forall k: nat :: k < i ==> SlotRead(c.buf, metas, pre, slots, k)
      modifies c
    {
      var r := ReadRecord(c, metas, pre, dupOf[i].Some?, i);
      if r.Err? {
        FirstFaultStays(c.buf, metas, pre, i + 1, |metas|);
        return Some(r.error), slots;
      }
      ghost var was := slots;
      slots := slots[i := r.value];
      hide Offset;
      forall k: nat | k < i + 1
        ensures SlotRead(c.buf, metas, pre, slots, k)
      {
        assert k < i ==> SlotRead(c.buf, metas, pre, was, k);
      }
      i := i + 1;
    }
    fault := None;
  }

  method ReadAccountWrites(buffer: Data, metas: seq<Meta>, pre: Accounts)
    returns (r: Result<(Accounts, seq<u64>), DeserializeError>)
    ensures r == Writes(buffer, metas, pre)
  {
    hide Find, FirstFrom, WordAt, AccountAt, FirstFault, Offset;
    var c := new ByteCursor(buffer);
    var count := c.U64();
    if count.None? {
      return Err(Truncated);
    }
    if count.value != |metas| {
      return Err(AccountCountMismatch(|metas|, count.value));
    }
    var dupOf := DupMap(metas);
    var fault, slots := ReadRecords(c, metas, pre, dupOf);
    if fault.Some? {
      return Err(fault.value);
    }
    var len := c.U64();
    if len.None? {
      return Err(Truncated);
    }
    var ok := c.Skip(len.value);
    if ok {
      ok := c.Skip(32);
    }
    if !ok {
      return Err(Truncated);
    }
    var accounts, lens := CollectWrites(buffer, metas, pre, dupOf, slots);
    r := Ok((accounts, lens));
  }

  /** One entry per reference, from its first occurrence's slot. */
  method CollectWrites(ghost b: Data, metas: seq<Meta>, ghost pre: Accounts, dupOf: seq<Option<nat>>, slots: seq<Option<(Account, u64)>>)
    returns (accounts: Accounts, lens: seq<u64>)
    requires |dupOf| == |metas| == |slots| && FirstFault(b, metas, pre, |metas|).None?
    requires forall i :: 0 <= i < |metas| ==> dupOf[i] == DupOf(metas, i)
    requires forall k: nat :: k < |metas| ==> SlotRead(b, metas, pre, slots, k)
    ensures accounts == WrittenAccounts(b, metas, pre) && lens == WrittenLens(b, metas, pre)
  {
    hide Find, FirstFrom, AccountAt, FirstFault, Offset;
    accounts, lens := [], [];
    var i := 0;
    while i < |metas|
      invariant i == |accounts| == |lens| <= |metas|
      invariant forall k :: 0 <= k < i ==> accounts[k] == (metas[k].key, WriteOf(b, metas, pre, k).0)
      invariant forall k :: 0 <= k < i ==> lens[k] == WriteOf(b, metas, pre, k).1
    {
      var first := if dupOf[i].Some? then dupOf[i].value else i;
      WriteDefined(b, metas, pre, i);
      assert SlotRead(b, metas, pre, slots, first);
      var write := slots[first].value;
      accounts := accounts + [(metas[i].key, write.0)];
      lens := lens + [write.1];
      i := i + 1;
    }
  }

  method DeserializeAccountWrites(buffer: Data, metas: seq<Meta>, pre: Accounts) returns (r: Result<Accounts, DeserializeError>)
    ensures r == Deserialized(buffer, metas, pre)
  {
    hide FirstFault, WriteOf, WordAt, TrailerFits;
    var writes := ReadAccountWrites(buffer, metas, pre);
    if writes.Err? {
      return Err(writes.error);
    }
    var (accounts, lens) := writes.value;
    var i := 0;
    while i < |accounts|
      invariant i <= |accounts| && FirstOverflow(accounts, lens, i).None?
    {
      if lens[i] != |accounts[i].1.data| {
        FirstOverflowStays(accounts, lens, i + 1, |accounts|);
        return Err(DataLengthOverflow(lens[i]));
      }
      i := i + 1;
    }
    r := Ok(accounts);
  }

  lemma {:induction false} FirstOverflowStays(accounts: Accounts, raw: seq<u64>, i: nat, n: nat)
    requires i <= n <= |raw| == |accounts| && FirstOverflow(accounts, raw, i).Some?
    ensures FirstOverflow(accounts, raw, n) == FirstOverflow(accounts, raw, i)
    decreases n
  {
    if i < n {
      FirstOverflowStays(accounts, raw, i, n - 1);
    }
  }

  // ----- positions without duplicates -----

  datatype InputOffsets = InputOffsets(accountData: seq<nat>, instructionData: nat)

  /** The start of record `i` when every account is listed once. */
  function PlainOffset(lengths: seq<u64>, i: nat): nat
    requires i <= |lengths|
  {
    if i == 0 then 8 else PlainOffset(lengths, i - 1) + 96 + AreaLen(lengths[i - 1])
  }

  /** `n / 8 * 8` of the length with its growth and seven more bytes. */
  function Padded(len: nat): (r: nat)
    ensures r == AreaLen(len) && len + 10240 <= r
  {
    (len + 10240 + 7) / 8 * 8
  }

  lemma {:induction false} PlainOffsetGrows(lengths: seq<u64>, i: nat, n: nat)
    requires i <= n <= |lengths|
    ensures PlainOffset(lengths, i) <= PlainOffset(lengths, n)
    decreases n
  {
    if i < n {
      PlainOffsetGrows(lengths, i, n - 1);
    }
  }

  lemma PlainStep(lengths: seq<u64>, i: nat)
    requires i < |lengths|
    ensures PlainOffset(lengths, i + 1) == PlainOffset(lengths, i) + 96 + Padded(lengths[i])
    ensures PlainOffset(lengths, i + 1) <= PlainOffset(lengths, |lengths|)
  {
    hide AreaLen;
    PlainOffsetGrows(lengths, i + 1, |lengths|);
  }

  function CheckedAdd(a: nat, b: nat): Option<nat> {
    if a + b < TWO64 then Some(a + b) else None
  }

  /** The data position of the record at `cursor` and the next record's, each sum checked. */
  function CheckedRecord(cursor: nat, len: nat): (r: Option<(nat, nat)>)
    ensures r.Some? ==> r.value == (cursor + 88, cursor + 96 + Padded(len))
    ensures r.None? ==> cursor + 96 + Padded(len) + 8 >= TWO64
  {
    var data := CheckedAdd(cursor, 88);
    var grown := CheckedAdd(len, 10240);
    if data.None? || grown.None? || CheckedAdd(grown.value, 7).None? then None
    else
      var header := CheckedAdd(cursor, 96);
      if header.None? || CheckedAdd(header.value, Padded(len)).None? then None
      else Some((data.value, header.value + Padded(len)))
  }

  /** An account's data starts 88 bytes into its record. */
  ghost predicate DataPositions(lengths: seq<u64>, positions: seq<nat>) {
    |positions| <= |lengths|
    && forall i :: 0 <= i < |positions| ==> positions[i] == PlainOffset(lengths, i) + 88
  }

  /** Fails exactly when the instruction data would start past the 64-bit range. */
  method AlignedInputOffsets(lengths: seq<u64>) returns (r: Option<InputOffsets>)
    ensures r.Some? <==> PlainOffset(lengths, |lengths|) + 8 < TWO64
    ensures r.Some? ==> r.value.instructionData == PlainOffset(lengths, |lengths|) + 8
    ensures r.Some? ==> |r.value.accountData| == |lengths| && DataPositions(lengths, r.value.accountData)
  {
    assert PlainOffset(lengths, 0) == 8;
    hide PlainOffset, Padded, AreaLen, CheckedRecord;
    var cursor := 8;
    var accountData: seq<nat> := [];
    var i := 0;
    while i < |lengths|
      invariant i == |accountData| <= |lengths| && cursor == PlainOffset(lengths, i)
      invariant DataPositions(lengths, accountData)
    {
      PlainStep(lengths, i);
      var next := CheckedRecord(cursor, lengths[i]);
      if next.None? {
        return None;
      }
      accountData := accountData + [next.value.0];
      cursor := next.value.1;
      i := i + 1;
    }
    if cursor + 8 >= TWO64 {
      return None;
    }
    r := Some(InputOffsets(accountData, cursor + 8));
  }

  predicate NoDuplicates(metas: seq<Meta>) {
    forall i :: 0 <= i < |metas| ==> First(metas, i) == i
  }

  function Lengths(metas: seq<Meta>, accounts: Accounts): seq<u64> {
    seq(|metas|, i requires 0 <= i < |metas| => DataLen(accounts, metas[i].key))
  }

  lemma {:induction false} PlainIsOffset(metas: seq<Meta>, accounts: Accounts, i: nat)
    requires i <= |metas| && forall k :: 0 <= k < i ==> First(metas, k) == k
    ensures PlainOffset(Lengths(metas, accounts), i) == Offset(metas, accounts, i)
  {
    hide First, AreaLen, DataLen;
    if i > 0 {
      PlainIsOffset(metas, accounts, i - 1);
    }
  }

  lemma {:induction false} DuplicatesShorten(metas: seq<Meta>, accounts: Accounts, i: nat)
    requires i <= |metas|
    ensures Offset(metas, accounts, i) <= PlainOffset(Lengths(metas, accounts), i)
    ensures (exists k :: 0 <= k < i && First(metas, k) < k) ==> Offset(metas, accounts, i) < PlainOffset(Lengths(metas, accounts), i)
  {
    hide First, AreaLen, DataLen;
    if i > 0 {
      DuplicatesShorten(metas, accounts, i - 1);
    }
  }

  /** The predicted positions are the serializer's exactly when no account is listed twice. */
  lemma OffsetsMatchIff(metas: seq<Meta>, accounts: Accounts)
    ensures NoDuplicates(metas) <==> PlainOffset(Lengths(metas, accounts), |metas|) == Offset(metas, accounts, |metas|)
    ensures NoDuplicates(metas) ==> forall i: nat :: i <= |metas| ==>
              PlainOffset(Lengths(metas, accounts), i) == Offset(metas, accounts, i)
  {
    hide FirstFrom, Offset, PlainOffset;
    if NoDuplicates(metas) {
      forall i: nat | i <= |metas|
        ensures PlainOffset(Lengths(metas, accounts), i) == Offset(metas, accounts, i)
      {
        PlainIsOffset(metas, accounts, i);
      }
    } else {
      DuplicatesShorten(metas, accounts, |metas|);
    }
  }

  /** At the predicted positions of a duplicate-free serialized buffer are the accounts' data and
      the instruction's data. */
  lemma PredictedPositionsHold(ix: Instruction, accounts: Accounts, programId: Pubkey, b: Data, i: nat)
    requires Serialized(ix, accounts, programId) == Ok(b) && NoDuplicates(ix.accounts)
    ensures var lengths := Lengths(ix.accounts, accounts);
            var d := PlainOffset(lengths, |ix.accounts|) + 8;
            d + |ix.data| <= |b| && b[d..d + |ix.data|] == ix.data
    ensures i < |ix.accounts| ==>
              Find(accounts, ix.accounts[i].key).Some?
              && var data := Find(accounts, ix.accounts[i].key).value.data;
                 var p := PlainOffset(Lengths(ix.accounts, accounts), i) + 88;
                 p + |data| <= |b| && b[p..p + |data|] == data
  {
    hide Find, First, Layout, Prefix, Offset, PlainOffset, Le8, FirstMissing, Body, TableStart;
    var metas := ix.accounts;
    OffsetsMatchIff(metas, accounts);
    LayoutStarts(ix, accounts, programId);
    if i < |metas| {
      AccountDataInPlace(metas, accounts, b, i);
    }
    InstructionDataInPlace(ix, accounts, programId, b);
  }

  lemma AccountDataInPlace(metas: seq<Meta>, accounts: Accounts, b: Data, i: nat)
    requires i < |metas| && Present(metas, accounts) && First(metas, i) == i
    requires Prefix(metas, accounts, |metas|) <= b
    ensures var data := Find(accounts, metas[i].key).value.data;
            var p := Offset(metas, accounts, i) + 88;
            p + |data| <= |b| && b[p..p + |data|] == data
  {
    hide Find, FirstFrom, Prefix, Offset, AccountBytes, Le8, AreaLen;
    RecordInPlace(b, metas, accounts, i);
    RecordCarries(b, Offset(metas, accounts, i), metas, metas[i].key, Find(accounts, metas[i].key).value);
  }

  lemma InstructionDataInPlace(ix: Instruction, accounts: Accounts, programId: Pubkey, b: seq<u8>)
    requires Present(ix.accounts, accounts) && Body(ix, accounts, programId) <= b
    ensures var d := Offset(ix.accounts, accounts, |ix.accounts|) + 8;
            d + |ix.data| <= |b| && b[d..d + |ix.data|] == ix.data
  {
    hide Find, Prefix, Offset, Le8;
    var body := Body(ix, accounts, programId);
    var d := Offset(ix.accounts, accounts, |ix.accounts|) + 8;
    assert body[d..d + |ix.data|] == ix.data;
    assert b[d..d + |ix.data|] == body[d..d + |ix.data|];
  }
}
