/** What every byte of a serialized buffer says, position by position. */
module AccountContents {
  import opened Words
  import opened AccountLayout
  import opened AccountRoundTrip

  ghost predicate AllAre(b: seq<u8>, lo: nat, hi: nat, v: u8) {
    lo <= hi <= |b| && forall k :: lo <= k < hi ==> b[k] == v
  }

  /** The three flags: some reference to the key signs, some is writable, the account is a program. */
  ghost predicate FlagsAt(b: seq<u8>, p: nat, metas: seq<Meta>, key: Pubkey, executable: bool) {
    p + 4 <= |b| && b[p + 1] <= 1 && b[p + 2] <= 1 && b[p + 3] <= 1
    && (b[p + 1] == 1 <==> exists j :: 0 <= j < |metas| && metas[j].key == key && metas[j].isSigner)
    && (b[p + 2] == 1 <==> exists j :: 0 <= j < |metas| && metas[j].key == key && metas[j].isWritable)
    && (b[p + 3] == 1 <==> executable)
  }

  /** The whole record of a first occurrence, up to the next one. */
  ghost predicate FullRecord(b: seq<u8>, p: nat, metas: seq<Meta>, key: Pubkey, a: Account) {
    var area := p + 88 + AreaLen(|a.data|);
    area + 8 <= |b| && b[p] == NON_DUP_MARKER && FlagsAt(b, p, metas, key, a.executable) && AllAre(b, p + 4, p + 8, 0)
    && b[p + 8..p + 40] == key && b[p + 40..p + 72] == a.owner
    && WordAt(b, p + 72) == a.lamports && WordAt(b, p + 80) == |a.data| && b[p + 88..p + 88 + |a.data|] == a.data
    && AllAre(b, p + 88 + |a.data|, area, 0) && AllAre(b, area, area + 8, 0xFF)
  }

  ghost predicate DupRecord(b: seq<u8>, p: nat, original: nat) {
    p + 8 <= |b| && b[p] == original && AllAre(b, p + 1, p + 8, 0)
  }

  lemma MaxWord(k: nat)
    requires k < 8
    ensures Le8(TWO64 - 1)[k] == 0xFF
  {
    assert Pow256(0) == 1 && Pow256(1) == 0x100 && Pow256(2) == 0x1_0000 && Pow256(3) == 0x100_0000;
    assert Pow256(4) == 0x1_0000_0000 && Pow256(5) == 0x100_0000_0000;
    assert Pow256(6) == 0x1_0000_0000_0000 && Pow256(7) == 0x100_0000_0000_0000;
    hide Pow256;
    assert ByteOf(TWO64 - 1, k) == 0xFF;
  }

  /** Flags and padding of a record's header. */
  lemma HeaderFlags(metas: seq<Meta>, key: Pubkey, a: Account)
    ensures var r := HeaderBytes(metas, key, a); FlagsAt(r, 0, metas, key, a.executable) && AllAre(r, 4, 8, 0)
  {
    hide Le8;
    var r := HeaderBytes(metas, key, a);
    assert r[1] == Flag(AnySigner(metas, key)) && r[2] == Flag(AnyWritable(metas, key)) && r[3] == Flag(a.executable);
  }

  /** Growth area and rent epoch at the end of a record. */
  lemma RecordTail(metas: seq<Meta>, key: Pubkey, a: Account)
    ensures var r, area := AccountBytes(metas, key, a), 88 + AreaLen(|a.data|);
            AllAre(r, 88 + |a.data|, area, 0) && AllAre(r, area, area + 8, 0xFF)
  {
    hide HeaderBytes, Le8, Pad;
    var r, area := AccountBytes(metas, key, a), 88 + AreaLen(|a.data|);
    forall k | area <= k < area + 8
      ensures r[k] == 0xFF
    {
      MaxWord(k - area);
      assert r[k] == Le8(TWO64 - 1)[k - area];
    }
  }

  lemma RecordFlags(metas: seq<Meta>, key: Pubkey, a: Account)
    ensures var r := AccountBytes(metas, key, a); FlagsAt(r, 0, metas, key, a.executable) && AllAre(r, 4, 8, 0)
  {
    hide HeaderBytes, Le8, Pad, Zeros;
    HeaderFlags(metas, key, a);
    var r, h := AccountBytes(metas, key, a), HeaderBytes(metas, key, a);
    assert forall k :: 0 <= k < 8 ==> r[k] == h[k];
  }

  lemma FullRecordAt(b: Data, p: nat, metas: seq<Meta>, key: Pubkey, a: Account)
    requires p + |AccountBytes(metas, key, a)| <= |b|
    requires b[p..p + |AccountBytes(metas, key, a)|] == AccountBytes(metas, key, a)
    ensures FullRecord(b, p, metas, key, a)
  {
    hide AccountBytes, Le8, WordAt;
    RecordCarries(b, p, metas, key, a);
    RecordFlags(metas, key, a);
    RecordTail(metas, key, a);
    var r := AccountBytes(metas, key, a);
    assert forall k :: 0 <= k < |r| ==> b[p + k] == r[k];
    WordReads(b, p + 72, a.lamports);
    WordReads(b, p + 80, |a.data|);
    AllMoved(b, p, r, 4, 8, 0);
    AllMoved(b, p, r, 88 + |a.data|, 88 + AreaLen(|a.data|), 0);
    AllMoved(b, p, r, 88 + AreaLen(|a.data|), 96 + AreaLen(|a.data|), 0xFF);
    assert b[p + 1] == r[1] && b[p + 2] == r[2] && b[p + 3] == r[3];
  }

  lemma AllMoved(b: seq<u8>, p: nat, r: seq<u8>, lo: nat, hi: nat, v: u8)
    requires p + |r| <= |b| && (forall k :: 0 <= k < |r| ==> b[p + k] == r[k]) && AllAre(r, lo, hi, v)
    ensures AllAre(b, p + lo, p + hi, v)
  {
    forall k | p + lo <= k < p + hi
      ensures b[k] == v
    {
      assert b[p + (k - p)] == r[k - p];
    }
  }

  lemma DupRecordAt(b: Data, p: nat, original: nat)
    requires original < 256 && p + 8 <= |b| && b[p..p + 8] == [original] + Zeros(7)
    ensures DupRecord(b, p, original)
  {
    var r := [original] + Zeros(7);
    assert forall k :: 0 <= k < 8 ==> b[p + k] == r[k];
    AllMoved(b, p, r, 1, 8, 0);
  }

  /** The record of reference `i` of a serialized buffer. */
  lemma RecordContents(ix: Instruction, accounts: Accounts, programId: Pubkey, b: Data, i: nat)
    requires Serialized(ix, accounts, programId) == Ok(b) && i < |ix.accounts|
    ensures Present(ix.accounts, accounts)
    ensures var metas := ix.accounts;
            var p, original := Offset(metas, accounts, i), First(metas, i);
            if original < i then DupRecord(b, p, original)
            else FullRecord(b, p, metas, metas[i].key, Find(accounts, metas[i].key).value)
  {
    hide Offset, Find, Prefix, Layout, AccountBytes, FullRecord, DupRecord, First, Zeros, RecordLen, FirstMissing;
    var metas := ix.accounts;
    LayoutStarts(ix, accounts, programId);
    RecordInPlace(b, metas, accounts, i);
    var p, original, r := Offset(metas, accounts, i), First(metas, i), RecordBytes(metas, accounts, i);
    assert b[p..p + |r|] == r;
    if original < i {
      assert r == [original] + Zeros(7);
      hide RecordBytes;
      DupRecordAt(b, p, original);
    } else {
      assert r == AccountBytes(metas, metas[i].key, Find(accounts, metas[i].key).value);
      hide RecordBytes;
      FullRecordAt(b, p, metas, metas[i].key, Find(accounts, metas[i].key).value);
    }
  }

  lemma TrailerContents(ix: Instruction, accounts: Accounts, programId: Pubkey, b: Data)
    requires Serialized(ix, accounts, programId) == Ok(b)
    ensures var end, n := Offset(ix.accounts, accounts, |ix.accounts|), |ix.data|;
            |b| == TableStart(ix, accounts) + 8 * |ix.accounts| && end + 40 + n <= |b|
            && WordAt(b, end) == n && b[end + 8..end + 8 + n] == ix.data
            && b[end + 8 + n..end + 40 + n] == programId && AllAre(b, end + 40 + n, TableStart(ix, accounts), 0)
  {
    hide Offset, Find, Prefix, WordAt, Pointers, Le8, Pad;
    TrailerInPlace(ix, accounts, programId, b);
    var end, n := Offset(ix.accounts, accounts, |ix.accounts|), |ix.data|;
    var body := Body(ix, accounts, programId);
    var t := Trailer(ix, programId);
    assert body == Prefix(ix.accounts, accounts, |ix.accounts|) + t;
    assert t[8..8 + n] == ix.data && t[8 + n..40 + n] == programId;
    LayoutStarts(ix, accounts, programId);
    assert body <= b && body[end..] == t;
    assert b[end + 8..end + 8 + n] == body[end + 8..end + 8 + n] == t[8..8 + n];
    assert b[end + 8 + n..end + 40 + n] == body[end + 8 + n..end + 40 + n] == t[8 + n..40 + n];
    forall k | end + 40 + n <= k < TableStart(ix, accounts)
      ensures b[k] == 0
    {
      assert b[k] == Zeros(Pad(TrailerEnd(ix, accounts)))[k - |body|];
    }
  }

  /** The count word. With the records, the trailer and the pointer table this is every byte. */
  lemma CountContents(ix: Instruction, accounts: Accounts, programId: Pubkey, b: Data)
    requires Serialized(ix, accounts, programId) == Ok(b)
    ensures |b| >= 8 && WordAt(b, 0) == |ix.accounts| <= 255
  {
    hide Offset, Find, Prefix, Layout, WordAt;
    LayoutStarts(ix, accounts, programId);
    CountInPlace(ix.accounts, accounts, b);
  }
}
