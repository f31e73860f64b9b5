/** The serialized buffer and the parsed accounts are inverse to each other, and what the parser
    returns depends on nothing but four fields per account at positions fixed before the run. */
module AccountRoundTrip {
  import opened Words
  import opened AccountLayout

  // ----- words and slices -----

  lemma Le8Value(v: nat)
    requires v < TWO64
    ensures LeValue(Le8(v)) == v
  {
    hide LeValue, LeBytes;
    LeRoundTrip(v, 8);
    Pow256Values();
  }

  lemma WordReads(b: seq<u8>, p: nat, v: nat)
    requires p + 8 <= |b| && b[p..p + 8] == Le8(v) && v < TWO64
    ensures WordAt(b, p) == v
  {
    hide LeValue, LeBytes;
    Le8Value(v);
  }

  lemma SubSlice(b: seq<u8>, p: nat, n: nat, i: nat, j: nat)
    requires p + n <= |b| && i <= j <= n
    ensures b[p..p + n][i..j] == b[p + i..p + j]
  {
    var x, y := b[p..p + n][i..j], b[p + i..p + j];
    assert forall k :: 0 <= k < |x| ==> x[k] == y[k];
  }

  // ----- one record -----

  lemma HeaderFields(metas: seq<Meta>, key: Pubkey, a: Account)
    ensures var r := HeaderBytes(metas, key, a);
            r[0] == NON_DUP_MARKER && r[8..40] == key && r[40..72] == a.owner
            && r[72..80] == Le8(a.lamports) && r[80..88] == Le8(|a.data|)
  {
    hide AnySigner, AnyWritable, Le8, Zeros;
  }

  lemma RecordFields(metas: seq<Meta>, key: Pubkey, a: Account)
    ensures var r := AccountBytes(metas, key, a);
            r[0] == NON_DUP_MARKER && r[8..40] == key && r[40..72] == a.owner
            && r[72..80] == Le8(a.lamports) && r[80..88] == Le8(|a.data|)
            && r[88..88 + |a.data|] == a.data
  {
    hide HeaderBytes, Le8, Zeros, Pad;
    HeaderFields(metas, key, a);
    var h, r := HeaderBytes(metas, key, a), AccountBytes(metas, key, a);
    assert r[..88] == h;
    SubSlice(r, 0, 88, 8, 40);
    SubSlice(r, 0, 88, 40, 72);
    SubSlice(r, 0, 88, 72, 80);
    SubSlice(r, 0, 88, 80, 88);
    assert r[0] == h[0];
  }

  /** The record at `p` carries account `a`'s owner, lamports, length and data. */
  ghost predicate Carries(b: Data, p: nat, a: Account) {
    p + 88 + |a.data| <= |b|
    && b[p + 40..p + 72] == a.owner && b[p + 72..p + 80] == Le8(a.lamports)
    && b[p + 80..p + 88] == Le8(|a.data|) && b[p + 88..p + 88 + |a.data|] == a.data
  }

  /** Whatever account a record carries is read back, as long as its data fits the growth area:
      in particular the one the serializer wrote, and any a program put in its place. */
  lemma ReadsBack(b: Data, p: nat, pre: Account, a: Account)
    requires p + 96 + AreaLen(|pre.data|) <= |b| && Carries(b, p, a)
    requires |a.data| <= |pre.data| + MAX_PERMITTED_DATA_INCREASE
    requires a.executable == pre.executable && a.rentEpoch == pre.rentEpoch
    ensures AccountAt(b, p, pre) == (a, |a.data|)
  {
    hide Le8, WordAt;
    WordReads(b, p + 72, a.lamports);
    WordReads(b, p + 80, |a.data|);
  }

  lemma RecordCarries(b: Data, p: nat, metas: seq<Meta>, key: Pubkey, a: Account)
    requires p + |AccountBytes(metas, key, a)| <= |b|
    requires b[p..p + |AccountBytes(metas, key, a)|] == AccountBytes(metas, key, a)
    ensures Carries(b, p, a) && b[p] == NON_DUP_MARKER && b[p + 8..p + 40] == key
  {
    hide AccountBytes, Le8;
    RecordFields(metas, key, a);
    var r := AccountBytes(metas, key, a);
    var n := |r|;
    SubSlice(b, p, n, 8, 40);
    SubSlice(b, p, n, 40, 72);
    SubSlice(b, p, n, 72, 80);
    SubSlice(b, p, n, 80, 88);
    SubSlice(b, p, n, 88, 88 + |a.data|);
    assert b[p] == r[0];
  }

  // ----- the whole buffer -----

  lemma {:induction false} PrefixGrows(metas: seq<Meta>, accounts: Accounts, i: nat, k: nat)
    requires i <= k <= |metas| && Present(metas, accounts)
    ensures Prefix(metas, accounts, i) <= Prefix(metas, accounts, k)
    decreases k
  {
    hide RecordBytes, Offset, RecordLen;
    assert forall m :: 0 <= m < |metas| ==> Find(accounts, metas[m].key).Some?;
    hide Find, Present;
    if i < k {
      PrefixGrows(metas, accounts, i, k - 1);
    }
  }

  /** Each record is at its offset. */
  lemma RecordInPlace(b: seq<u8>, metas: seq<Meta>, accounts: Accounts, i: nat)
    requires i < |metas| && Present(metas, accounts) && Prefix(metas, accounts, |metas|) <= b
    ensures Offset(metas, accounts, i) + RecordLen(metas, accounts, i) <= |b|
    ensures b[Offset(metas, accounts, i)..Offset(metas, accounts, i) + RecordLen(metas, accounts, i)] == RecordBytes(metas, accounts, i)
  {
    hide RecordBytes, Find, RecordLen;
    PrefixGrows(metas, accounts, i + 1, |metas|);
    var q := Prefix(metas, accounts, i + 1);
    assert q == Prefix(metas, accounts, i) + RecordBytes(metas, accounts, i);
    hide Prefix, Offset;
    assert q <= b;
  }

  lemma LayoutStarts(ix: Instruction, accounts: Accounts, programId: Pubkey)
    requires Present(ix.accounts, accounts)
    ensures Prefix(ix.accounts, accounts, |ix.accounts|) <= Layout(ix, accounts, programId)
    ensures Body(ix, accounts, programId) <= Layout(ix, accounts, programId)
  {
    hide Prefix, Pointers, Zeros, Find, Offset, Trailer, Le8;
  }

  lemma CountInPlace(metas: seq<Meta>, accounts: Accounts, b: seq<u8>)
    requires Present(metas, accounts) && Prefix(metas, accounts, |metas|) <= b && |metas| < TWO64
    ensures |b| >= 8 && WordAt(b, 0) == |metas|
  {
    hide WordAt, Le8, RecordBytes, Find;
    PrefixGrows(metas, accounts, 0, |metas|);
    assert b[0..8] == Le8(|metas|);
    WordReads(b, 0, |metas|);
  }

  lemma TrailerInPlace(ix: Instruction, accounts: Accounts, programId: Pubkey, b: Data)
    requires Present(ix.accounts, accounts) && b == Layout(ix, accounts, programId)
    ensures TrailerFits(b, Offset(ix.accounts, accounts, |ix.accounts|))
    ensures WordAt(b, Offset(ix.accounts, accounts, |ix.accounts|)) == |ix.data|
  {
    hide WordAt, Prefix, Pointers, Zeros, Find, Offset, Le8, Layout;
    LayoutStarts(ix, accounts, programId);
    var p := Offset(ix.accounts, accounts, |ix.accounts|);
    var body := Body(ix, accounts, programId);
    assert body[p..p + 8] == Le8(|ix.data|);
    assert b[p..p + 8] == body[p..p + 8];
    WordReads(b, p, |ix.data|);
  }

  /** No record is cut when the buffer is as long as the serialized one. */
  lemma NoFaultWhenLong(b: Data, metas: seq<Meta>, accounts: Accounts)
    requires Present(metas, accounts) && Offset(metas, accounts, |metas|) <= |b|
    ensures FirstFault(b, metas, accounts, |metas|).None?
  {
    hide FirstFault, Offset, RecordLen, Find;
    forall i: nat | i < |metas|
      ensures RecordFault(b, metas, accounts, i).None?
    {
      OffsetMonotone(metas, accounts, i, |metas|);
    }
    NoFault(b, metas, accounts, |metas|);
  }

  lemma WriteIsOriginal(b: Data, metas: seq<Meta>, accounts: Accounts, i: nat)
    requires i < |metas| && Present(metas, accounts) && Prefix(metas, accounts, |metas|) <= b
    requires FirstFault(b, metas, accounts, |metas|).None?
    ensures var a := Find(accounts, metas[i].key).value; WriteOf(b, metas, accounts, i) == (a, |a.data|)
  {
    hide FirstFault, Offset, Find, AccountBytes, AccountAt, Carries, FirstFrom;
    var j := First(metas, i);
    WriteDefined(b, metas, accounts, i);
    RecordInPlace(b, metas, accounts, j);
    hide Prefix;
    var a := Find(accounts, metas[j].key).value;
    assert RecordBytes(metas, accounts, j) == AccountBytes(metas, metas[j].key, a);
    RecordCarries(b, Offset(metas, accounts, j), metas, metas[j].key, a);
    ReadsBack(b, Offset(metas, accounts, j), a, a);
  }

  /** Parsing what was serialized gives back exactly the instruction's accounts, for every account
      list, every data length and every pattern of duplicates the serializer accepts. */
  lemma RoundTrip(ix: Instruction, accounts: Accounts, programId: Pubkey, b: Data)
    requires Serialized(ix, accounts, programId) == Ok(b)
    ensures AccountsFor(ix.accounts, accounts).Ok?
    ensures Deserialized(b, ix.accounts, accounts) == Ok(AccountsFor(ix.accounts, accounts).value)
  {
    hide FirstFault, Offset, Find, Prefix, Layout, WriteOf, WordAt;
    var metas := ix.accounts;
    var want := AccountsFor(metas, accounts).value;
    LayoutStarts(ix, accounts, programId);
    CountInPlace(metas, accounts, b);
    TrailerInPlace(ix, accounts, programId, b);
    NoFaultWhenLong(b, metas, accounts);
    forall i | 0 <= i < |metas|
      ensures WrittenAccounts(b, metas, accounts)[i] == want[i]
      ensures WrittenLens(b, metas, accounts)[i] == |want[i].1.data|
    {
      WriteIsOriginal(b, metas, accounts, i);
    }
    assert WrittenAccounts(b, metas, accounts) == want;
  }

  // ----- buffers a program has written to -----

  /** A buffer of the serialized length parses exactly when its account count is intact and its
      instruction-data length still leaves room for the program id; nothing else a program writes
      can make the walk fail. */
  lemma ParsesIff(ix: Instruction, accounts: Accounts, b: Data)
    requires Present(ix.accounts, accounts)
    requires |b| == TableStart(ix, accounts) + 8 * |ix.accounts|
    ensures var end := Offset(ix.accounts, accounts, |ix.accounts|);
            end + 8 <= |b|
            && (Writes(b, ix.accounts, accounts).Ok?
                <==> WordAt(b, 0) == |ix.accounts| && end + 40 + WordAt(b, end) <= |b|)
  {
    hide FirstFault, Offset, Find, WordAt, WriteOf;
    NoFaultWhenLong(b, ix.accounts, accounts);
  }

  /** Keeping the two words the serializer wrote is enough. */
  lemma KeptWordsParse(ix: Instruction, accounts: Accounts, b: Data)
    requires Present(ix.accounts, accounts)
    requires |b| == TableStart(ix, accounts) + 8 * |ix.accounts|
    requires var end := Offset(ix.accounts, accounts, |ix.accounts|);
             end + 8 <= |b| && WordAt(b, 0) == |ix.accounts| && WordAt(b, end) == |ix.data|
    ensures Writes(b, ix.accounts, accounts).Ok?
  {
    hide FirstFault, Offset, Find, WordAt, WriteOf, Writes;
    ParsesIff(ix, accounts, b);
  }

  /** Two buffers agree on owner, lamports, length and the readable data of the record at `p`. */
  ghost predicate SameFields(b: Data, c: Data, p: nat, dataLen: nat) {
    p + 96 + AreaLen(dataLen) <= |b| && |b| == |c|
    && b[p + 40..p + 72] == c[p + 40..p + 72]
    && b[p + 72..p + 80] == c[p + 72..p + 80] && b[p + 80..p + 88] == c[p + 80..p + 88]
    && var len := Min(WordAt(b, p + 80), dataLen + MAX_PERMITTED_DATA_INCREASE);
       b[p + 88..p + 88 + len] == c[p + 88..p + 88 + len]
  }

  lemma SameFieldsSameAccount(b: Data, c: Data, p: nat, pre: Account)
    requires SameFields(b, c, p, |pre.data|)
    ensures AccountAt(b, p, pre) == AccountAt(c, p, pre)
  {
    hide LeValue;
  }

  /** The result depends only on those fields of the first occurrences: flags, keys, duplicate
      records, padding, rent epochs, instruction data and the pointer table are not read. */
  lemma WritesDependOnFields(b: Data, c: Data, metas: seq<Meta>, pre: Accounts)
    requires Writes(b, metas, pre).Ok? && Writes(c, metas, pre).Ok?
    requires forall i: nat :: i < |metas| && First(metas, i) == i ==>
               SameFields(b, c, Offset(metas, pre, i), DataLen(pre, metas[i].key))
    ensures Writes(b, metas, pre) == Writes(c, metas, pre)
    ensures Deserialized(b, metas, pre) == Deserialized(c, metas, pre)
  {
    hide FirstFault, Offset, Find, WordAt, AccountAt, SameFields, FirstFrom, RecordFault, TrailerFits;
    forall i | 0 <= i < |metas|
      ensures WriteOf(b, metas, pre, i) == WriteOf(c, metas, pre, i)
    {
      WriteDefined(b, metas, pre, i);
      WriteDefined(c, metas, pre, i);
      var j := First(metas, i);
      SameFieldsSameAccount(b, c, Offset(metas, pre, j), Find(pre, metas[j].key).value);
    }
    assert WrittenAccounts(b, metas, pre) == WrittenAccounts(c, metas, pre);
    assert WrittenLens(b, metas, pre) == WrittenLens(c, metas, pre);
  }

  // ----- the pointer table -----

  lemma {:induction false} PointerInTable(metas: seq<Meta>, accounts: Accounts, n: nat, i: nat)
    requires i < n <= |metas|
    ensures Pointers(metas, accounts, n)[8 * i..8 * i + 8] == Le8(MM_INPUT_START + Offset(metas, accounts, First(metas, i)))
  {
    hide Le8, Offset, First;
    if i < n - 1 {
      PointerInTable(metas, accounts, n - 1, i);
    }
  }

  /** Entry `i` of the pointer table is aligned and addresses a full record holding the key of
      reference `i`, also when `i` itself is a duplicate. */
  lemma PointerReachesRecord(ix: Instruction, accounts: Accounts, programId: Pubkey, b: Data, i: nat)
    requires Serialized(ix, accounts, programId) == Ok(b) && i < |ix.accounts|
    ensures TableStart(ix, accounts) % 8 == 0 && |b| == TableStart(ix, accounts) + 8 * |ix.accounts|
    ensures var p := WordAt(b, TableStart(ix, accounts) + 8 * i) - MM_INPUT_START;
            p == Offset(ix.accounts, accounts, First(ix.accounts, i)) && p % 8 == 0
            && p + 88 <= |b| && b[p] == NON_DUP_MARKER && b[p + 8..p + 40] == ix.accounts[i].key
  {
    hide Offset, Find, Layout, WordAt, First, Le8, Pad, TrailerEnd, FirstMissing;
    var t, p := TableStart(ix, accounts), Offset(ix.accounts, accounts, First(ix.accounts, i));
    FirstRecordHolds(ix, accounts, programId, b, i);
    PointerInPlace(ix, accounts, programId, b, i);
    WordReads(b, t + 8 * i, MM_INPUT_START + p);
  }

  lemma FirstRecordHolds(ix: Instruction, accounts: Accounts, programId: Pubkey, b: Data, i: nat)
    requires Present(ix.accounts, accounts) && b == Layout(ix, accounts, programId) && i < |ix.accounts|
    ensures var p := Offset(ix.accounts, accounts, First(ix.accounts, i));
            p % 8 == 0 && p + 88 <= |b| && b[p] == NON_DUP_MARKER && b[p + 8..p + 40] == ix.accounts[i].key
  {
    hide Offset, Find, Prefix, Layout, AccountBytes, Carries, FirstFrom, FirstFault, TableStart, AreaLen;
    var metas := ix.accounts;
    var j := First(metas, i);
    var p := Offset(metas, accounts, j);
    LayoutStarts(ix, accounts, programId);
    OffsetAligned(metas, accounts, j);
    RecordInPlace(b, metas, accounts, j);
    assert First(metas, j) == j by {
      assert metas[First(metas, j)].key == metas[i].key;
    }
    RecordCarries(b, p, metas, metas[j].key, Find(accounts, metas[j].key).value);
  }

  lemma PointerInPlace(ix: Instruction, accounts: Accounts, programId: Pubkey, b: seq<u8>, i: nat)
    requires Present(ix.accounts, accounts) && b == Layout(ix, accounts, programId) && i < |ix.accounts|
    ensures var t := TableStart(ix, accounts);
            b[t + 8 * i..t + 8 * i + 8] == Le8(MM_INPUT_START + Offset(ix.accounts, accounts, First(ix.accounts, i)))
  {
    hide Offset, Find, Prefix, Le8, First, Pointers, Zeros, Body, TrailerEnd;
    var metas := ix.accounts;
    var t := TableStart(ix, accounts);
    PointerInTable(metas, accounts, |metas|, i);
    var table := Pointers(metas, accounts, |metas|);
    assert b[t..] == table;
    assert b[t + 8 * i..t + 8 * i + 8] == table[8 * i..8 * i + 8];
  }
}
