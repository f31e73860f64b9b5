/** The input buffer a program is invoked with, as a function of an instruction and its accounts,
    and the accounts a buffer stands for after the program has written to it. Positions are
    closed formulas here; the walks that produce and parse the buffer are in `AccountBuffer`. */
module AccountLayout {
  import opened Words

  const MAX_PERMITTED_DATA_INCREASE: nat := 10240
  const NON_DUP_MARKER: u8 := 0xFF
  const MM_INPUT_START: int := 0x4_0000_0000

  type Pubkey = k: seq<u8> | |k| == 32 witness seq(32, i => 0)

  /** A byte vector: at most `isize::MAX` bytes long. */
  type Data = d: seq<u8> | |d| < 0x8000_0000_0000_0000

  datatype Account = Account(lamports: u64, data: Data, owner: Pubkey, executable: bool, rentEpoch: u64)

  datatype Meta = Meta(key: Pubkey, isSigner: bool, isWritable: bool)

  datatype Instruction = Instruction(accounts: seq<Meta>, data: Data)

  type Accounts = seq<(Pubkey, Account)>

  datatype SerializeError = MissingAccount(key: Pubkey) | TooManyAccounts(n: nat)

  datatype DeserializeError =
    | Truncated
    | AccountCountMismatch(expected: nat, got: nat)
    | DataLengthOverflow(raw: u64)
    | UnknownPubkeyInInstruction(key: Pubkey)

  // ----- lookups -----

  /** The first reference with this key, from index `i` on; the number of references if none. */
  function FirstFrom(metas: seq<Meta>, key: Pubkey, i: nat): (r: nat)
    requires i <= |metas|
    ensures i <= r <= |metas| && (r < |metas| ==> metas[r].key == key)
    ensures forall k :: i <= k < r ==> metas[k].key != key
    decreases |metas| - i
  {
    if i == |metas| || metas[i].key == key then i else FirstFrom(metas, key, i + 1)
  }

  /** The first occurrence of the account that reference `i` names. */
  function First(metas: seq<Meta>, i: nat): (r: nat)
    requires i < |metas|
    ensures r <= i && metas[r].key == metas[i].key
    ensures forall k :: 0 <= k < r ==> metas[k].key != metas[i].key
  {
    FirstFrom(metas, metas[i].key, 0)
  }

  function Find(accounts: Accounts, key: Pubkey): (r: Option<Account>)
    ensures r.None? <==> forall j :: 0 <= j < |accounts| ==> accounts[j].0 != key
    ensures r.Some? ==> exists j :: 0 <= j < |accounts| && accounts[j] == (key, r.value)
                                    && forall k :: 0 <= k < j ==> accounts[k].0 != key
  {
    if |accounts| == 0 then None
    else if accounts[0].0 == key then Some(accounts[0].1)
    else
      var r := Find(accounts[1..], key);
      assert r.Some? ==> exists j :: 1 <= j < |accounts| && accounts[j] == (key, r.value)
                                     && forall k :: 0 <= k < j ==> accounts[k].0 != key by {
        if r.Some? {
          var j :| 0 <= j < |accounts[1..]| && accounts[1..][j] == (key, r.value)
                   && forall k :: 0 <= k < j ==> accounts[1..][k].0 != key;
          assert accounts[j + 1] == (key, r.value);
          forall k | 0 <= k < j + 1
            ensures accounts[k].0 != key
          {
            assert k > 0 ==> accounts[1..][k - 1].0 != key;
          }
        }
      }
      assert r.None? ==> forall j :: 0 < j < |accounts| ==> accounts[j] == accounts[1..][j - 1];
      r
  }

  function FirstMissing(metas: seq<Meta>, accounts: Accounts, n: nat): (r: Option<Pubkey>)
    requires n <= |metas|
    ensures r.None? <==> forall i :: 0 <= i < n ==> Find(accounts, metas[i].key).Some?
  {
    if n == 0 then None
    else if FirstMissing(metas, accounts, n - 1).Some? then FirstMissing(metas, accounts, n - 1)
    else if Find(accounts, metas[n - 1].key).None? then Some(metas[n - 1].key)
    else None
  }

  // ----- positions -----

  function Pad(len: nat): (r: nat)
    ensures r < 8 && (len + r) % 8 == 0
  {
    var rem := len % 8;
    if rem == 0 then 0 else 8 - rem
  }

  function DataLen(accounts: Accounts, key: Pubkey): nat {
    match Find(accounts, key) case None => 0 case Some(a) => |a.data|
  }

  function AreaLen(dataLen: nat): nat {
    dataLen + MAX_PERMITTED_DATA_INCREASE + Pad(dataLen)
  }

  function RecordLen(metas: seq<Meta>, accounts: Accounts, i: nat): nat
    requires i < |metas|
  {
    if First(metas, i) < i then 8 else 96 + AreaLen(DataLen(accounts, metas[i].key))
  }

  /** Where the record of reference `i` starts; `Offset(|metas|)` is where the trailer does. */
  function Offset(metas: seq<Meta>, accounts: Accounts, i: nat): nat
    requires i <= |metas|
  {
    if i == 0 then 8 else Offset(metas, accounts, i - 1) + RecordLen(metas, accounts, i - 1)
  }

  lemma {:induction false} OffsetMonotone(metas: seq<Meta>, accounts: Accounts, i: nat, k: nat)
    requires i < k <= |metas|
    ensures Offset(metas, accounts, i) + RecordLen(metas, accounts, i) <= Offset(metas, accounts, k)
    decreases k
  {
    hide RecordLen;
    if i < k - 1 {
      OffsetMonotone(metas, accounts, i, k - 1);
    }
  }

  lemma AreaAligned(dataLen: nat)
    ensures AreaLen(dataLen) % 8 == 0
  {
  }

  lemma {:induction false} OffsetAligned(metas: seq<Meta>, accounts: Accounts, i: nat)
    requires i <= |metas|
    ensures Offset(metas, accounts, i) % 8 == 0 && Offset(metas, accounts, i) >= 8
  {
    if i > 0 {
      hide First, DataLen, Pad;
      OffsetAligned(metas, accounts, i - 1);
      AreaAligned(DataLen(accounts, metas[i - 1].key));
    }
  }

  // ----- the serialized bytes -----

  function Zeros(n: nat): (r: seq<u8>)
    ensures |r| == n
  {
    seq(n, i => 0)
  }

  function Le8(v: nat): (r: seq<u8>)
    ensures |r| == 8
  {
    LeBytes(v, 8)
  }

  function Flag(b: bool): u8 {
    if b then 1 else 0
  }

  predicate AnySigner(metas: seq<Meta>, key: Pubkey) {
    exists j :: 0 <= j < |metas| && metas[j].key == key && metas[j].isSigner
  }

  predicate AnyWritable(metas: seq<Meta>, key: Pubkey) {
    exists j :: 0 <= j < |metas| && metas[j].key == key && metas[j].isWritable
  }

  /** The 88 bytes before an account's data. */
  function HeaderBytes(metas: seq<Meta>, key: Pubkey, a: Account): (r: seq<u8>)
    ensures |r| == 88
  {
    [NON_DUP_MARKER, Flag(AnySigner(metas, key)), Flag(AnyWritable(metas, key)), Flag(a.executable)]
    + Zeros(4) + key + a.owner + Le8(a.lamports) + Le8(|a.data|)
  }

  function AccountBytes(metas: seq<Meta>, key: Pubkey, a: Account): (r: seq<u8>)
    ensures |r| == 96 + AreaLen(|a.data|)
  {
    HeaderBytes(metas, key, a) + a.data + Zeros(Pad(|a.data|) + MAX_PERMITTED_DATA_INCREASE) + Le8(TWO64 - 1)
  }

  function RecordBytes(metas: seq<Meta>, accounts: Accounts, i: nat): (r: seq<u8>)
    requires i < |metas| && Find(accounts, metas[i].key).Some?
    ensures |r| == RecordLen(metas, accounts, i)
  {
    if First(metas, i) < i then [First(metas, i) % 256] + Zeros(7)
    else AccountBytes(metas, metas[i].key, Find(accounts, metas[i].key).value)
  }

  predicate Present(metas: seq<Meta>, accounts: Accounts) {
    forall i :: 0 <= i < |metas| ==> Find(accounts, metas[i].key).Some?
  }

  /** The count word and the records of the first `i` references. */
  function Prefix(metas: seq<Meta>, accounts: Accounts, i: nat): (r: seq<u8>)
    requires i <= |metas| && forall k :: 0 <= k < i ==> Find(accounts, metas[k].key).Some?
    ensures |r| == Offset(metas, accounts, i)
  {
    if i == 0 then Le8(|metas|) else Prefix(metas, accounts, i - 1) + RecordBytes(metas, accounts, i - 1)
  }

  function Trailer(ix: Instruction, programId: Pubkey): seq<u8> {
    Le8(|ix.data|) + ix.data + programId
  }

  /** One address per reference: where its account's record is mapped. */
  function Pointers(metas: seq<Meta>, accounts: Accounts, n: nat): (r: seq<u8>)
    requires n <= |metas|
    ensures |r| == 8 * n
  {
    if n == 0 then []
    else Pointers(metas, accounts, n - 1) + Le8(MM_INPUT_START + Offset(metas, accounts, First(metas, n - 1)))
  }

  /** Where the program id ends. */
  function TrailerEnd(ix: Instruction, accounts: Accounts): nat {
    Offset(ix.accounts, accounts, |ix.accounts|) + 40 + |ix.data|
  }

  function TableStart(ix: Instruction, accounts: Accounts): nat {
    TrailerEnd(ix, accounts) + Pad(TrailerEnd(ix, accounts))
  }

  function Body(ix: Instruction, accounts: Accounts, programId: Pubkey): (r: seq<u8>)
    requires Present(ix.accounts, accounts)
    ensures |r| == TrailerEnd(ix, accounts)
  {
    Prefix(ix.accounts, accounts, |ix.accounts|) + Trailer(ix, programId)
  }

  function Layout(ix: Instruction, accounts: Accounts, programId: Pubkey): (r: seq<u8>)
    requires Present(ix.accounts, accounts)
    ensures |r| == TableStart(ix, accounts) + 8 * |ix.accounts|
  {
    Body(ix, accounts, programId) + Zeros(Pad(TrailerEnd(ix, accounts)))
    + Pointers(ix.accounts, accounts, |ix.accounts|)
  }

  function Serialized(ix: Instruction, accounts: Accounts, programId: Pubkey): Result<seq<u8>, SerializeError> {
    if |ix.accounts| > 255 then Err(TooManyAccounts(|ix.accounts|))
    else match FirstMissing(ix.accounts, accounts, |ix.accounts|)
      case Some(key) => Err(MissingAccount(key))
      case None => Ok(Layout(ix, accounts, programId))
  }

  /** The reference the parser is compared with: each reference's account by plain lookup. */
  function AccountsFor(metas: seq<Meta>, accounts: Accounts): Result<Accounts, SerializeError> {
    match FirstMissing(metas, accounts, |metas|)
    case Some(key) => Err(MissingAccount(key))
    case None => Ok(seq(|metas|, i requires 0 <= i < |metas| => (metas[i].key, Find(accounts, metas[i].key).value)))
  }

  // ----- what a buffer stands for -----

  function WordAt(b: seq<u8>, p: nat): (r: u64)
    requires p + 8 <= |b|
  {
    LeValueBound(b[p..p + 8]);
    Pow256Values();
    LeValue(b[p..p + 8])
  }

  function Min(a: nat, b: nat): nat {
    if a < b then a else b
  }

  /** The account whose record is at `p`, with the raw length field. Executable flag and rent
      epoch come from the account before the run, and no more data is taken than its area holds. */
  function AccountAt(b: Data, p: nat, pre: Account): (Account, u64)
    requires p + 96 + AreaLen(|pre.data|) <= |b|
  {
    var raw := WordAt(b, p + 80);
    var len := Min(raw, |pre.data| + MAX_PERMITTED_DATA_INCREASE);
    (Account(WordAt(b, p + 72), b[p + 88..p + 88 + len], b[p + 40..p + 72], pre.executable, pre.rentEpoch), raw)
  }

  function RecordFault(b: Data, metas: seq<Meta>, pre: Accounts, i: nat): Option<DeserializeError>
    requires i < |metas|
  {
    var p := Offset(metas, pre, i);
    if First(metas, i) == i && p + 88 <= |b| && Find(pre, metas[i].key).None?
    then Some(UnknownPubkeyInInstruction(metas[i].key))
    else if p + RecordLen(metas, pre, i) > |b| then Some(Truncated)
    else None
  }

  function FirstFault(b: Data, metas: seq<Meta>, pre: Accounts, n: nat): Option<DeserializeError>
    requires n <= |metas|
  {
    if n == 0 then None
    else if FirstFault(b, metas, pre, n - 1).Some? then FirstFault(b, metas, pre, n - 1)
    else RecordFault(b, metas, pre, n - 1)
  }

  predicate TrailerFits(b: Data, end: nat) {
    end + 8 <= |b| && end + 8 + WordAt(b, end) + 32 <= |b|
  }

  /** What the record walk returns, by random access at the positions fixed before the run. */
  function Writes(b: Data, metas: seq<Meta>, pre: Accounts): Result<(Accounts, seq<u64>), DeserializeError> {
    if |b| < 8 then Err(Truncated)
    else if WordAt(b, 0) != |metas| then Err(AccountCountMismatch(|metas|, WordAt(b, 0)))
    else match FirstFault(b, metas, pre, |metas|)
      case Some(e) => Err(e)
      case None =>
        if !TrailerFits(b, Offset(metas, pre, |metas|)) then Err(Truncated)
        else
          Ok((WrittenAccounts(b, metas, pre), WrittenLens(b, metas, pre)))
  }

  function WrittenAccounts(b: Data, metas: seq<Meta>, pre: Accounts): Accounts
    requires FirstFault(b, metas, pre, |metas|).None?
  {
    seq(|metas|, i requires 0 <= i < |metas| => (metas[i].key, WriteOf(b, metas, pre, i).0))
  }

  function WrittenLens(b: Data, metas: seq<Meta>, pre: Accounts): seq<u64>
    requires FirstFault(b, metas, pre, |metas|).None?
  {
    seq(|metas|, i requires 0 <= i < |metas| => WriteOf(b, metas, pre, i).1)
  }

  /** Reference `i`'s account: the one at its first occurrence's record. */
  function WriteOf(b: Data, metas: seq<Meta>, pre: Accounts, i: nat): (Account, u64)
    requires i < |metas| && FirstFault(b, metas, pre, |metas|).None?
  {
    var j := First(metas, i);
    WriteDefined(b, metas, pre, i);
    AccountAt(b, Offset(metas, pre, j), Find(pre, metas[j].key).value)
  }

  lemma WriteDefined(b: Data, metas: seq<Meta>, pre: Accounts, i: nat)
    requires i < |metas| && FirstFault(b, metas, pre, |metas|).None?
    ensures var j := First(metas, i);
            First(metas, j) == j && Find(pre, metas[j].key).Some?
            && Offset(metas, pre, j) + 96 + AreaLen(|Find(pre, metas[j].key).value.data|) <= |b|
  {
    hide Offset, Find, FirstFault, FirstFrom, AreaLen;
    NoFault(b, metas, pre, |metas|);
    var j := First(metas, i);
    assert metas[First(metas, j)].key == metas[i].key;
    assert First(metas, j) == j;
    assert RecordFault(b, metas, pre, j).None?;
  }

  lemma {:induction false} NoFault(b: Data, metas: seq<Meta>, pre: Accounts, n: nat)
    requires n <= |metas|
    ensures FirstFault(b, metas, pre, n).None? <==> forall i: nat :: i < n ==> RecordFault(b, metas, pre, i).None?
  {
    hide RecordFault;
    if n > 0 {
      NoFault(b, metas, pre, n - 1);
    }
  }

  function FirstOverflow(accounts: Accounts, raw: seq<u64>, n: nat): (r: Option<u64>)
    requires n <= |raw| == |accounts|
    ensures r.None? <==> forall i :: 0 <= i < n ==> raw[i] == |accounts[i].1.data|
  {
    if n == 0 then None
    else if FirstOverflow(accounts, raw, n - 1).Some? then FirstOverflow(accounts, raw, n - 1)
    else if raw[n - 1] != |accounts[n - 1].1.data| then Some(raw[n - 1])
    else None
  }

  function Deserialized(b: Data, metas: seq<Meta>, pre: Accounts): Result<Accounts, DeserializeError> {
    match Writes(b, metas, pre)
    case Err(e) => Err(e)
    case Ok((accounts, raw)) =>
      match FirstOverflow(accounts, raw, |accounts|)
      case Some(n) => Err(DataLengthOverflow(n))
      case None => Ok(accounts)
  }
}
