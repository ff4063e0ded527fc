/** Identity persistence over two backends, an OS keyring and a key file, plus a small meta file. */
module KeyStore {
  import opened Bytes
  import opened Names

  /** What the OS keyring lets this process do. */
  datatype Keyring = Keyring(readable: bool, writable: bool, deletable: bool)

  /** What is on the machine. */
  datatype Disk = Disk(keyring: Option<bytes>, keyFile: Option<bytes>, meta: Option<nat>)

  datatype LoadError = NotFound | Corrupt

  // ----- the operations, on values -----

  function AsKey(s: Option<bytes>): Option<Key32> {
    if s.Some? && |s.value| == 32 then Some(s.value) else None
  }

  function KeyringLoad(k: Keyring, d: Disk): Option<Key32> {
    if k.readable then AsKey(d.keyring) else None
  }

  predicate Exists(k: Keyring, d: Disk) { KeyringLoad(k, d).Some? || d.keyFile.Some? }

  predicate SaveRefused(k: Keyring, d: Disk, force: bool) { Exists(k, d) && !force }

  /** The keyring if it takes the secret, dropping any key file; otherwise the key file. */
  function Save(k: Keyring, d: Disk, secret: Key32, len: nat, force: bool): Disk {
    if SaveRefused(k, d, force) then d
    else if k.writable then Disk(Some(secret), None, Some(len))
    else d.(keyFile := Some(secret), meta := Some(len))
  }

  function Load(k: Keyring, d: Disk): Result<Key32, LoadError> {
    match KeyringLoad(k, d)
    case Some(key) => Ok(key)
    case None =>
      if d.keyFile.None? then Err(NotFound)
      else match AsKey(d.keyFile) case Some(key) => Ok(key) case None => Err(Corrupt)
  }

  function Wipe(k: Keyring, d: Disk): Disk {
    Disk(if k.deletable then None else d.keyring, None, None)
  }

  function LoadKeyidLen(d: Disk): nat {
    if d.meta.Some? then d.meta.value else DEFAULT_KEYID_LEN
  }

  /** The store as the program sees it: entries change in place, step by step. */
  class Profile {
    const k: Keyring
    var keyring: Option<bytes>
    var keyFile: Option<bytes>
    var meta: Option<nat>

    function State(): Disk reads this { Disk(keyring, keyFile, meta) }

    constructor (k: Keyring, d: Disk)
      ensures this.k == k && State() == d
    {
      this.k, keyring, keyFile, meta := k, d.keyring, d.keyFile, d.meta;
    }

    method SaveIdentity(secret: Key32, len: nat, force: bool) returns (saved: bool)
      modifies this
      ensures saved == !old(SaveRefused(k, State(), force))
      ensures State() == Save(k, old(State()), secret, len, force)
    {
      var held := k.readable && keyring.Some? && |keyring.value| == 32;
      if (held || keyFile.Some?) && !force {
        return false;
      }
      if k.writable {
        keyring := Some(secret);
        keyFile := None;
      } else {
        keyFile := Some(secret);
      }
      meta := Some(len);
      saved := true;
    }

    method LoadIdentity() returns (r: Result<Key32, LoadError>)
      ensures r == Load(k, State())
    {
      if k.readable && keyring.Some? && |keyring.value| == 32 {
        return Ok(keyring.value);
      }
      if keyFile.None? {
        return Err(NotFound);
      }
      if |keyFile.value| != 32 {
        return Err(Corrupt);
      }
      r := Ok(keyFile.value);
    }

    method WipeIdentity()
      modifies this
      ensures State() == Wipe(k, old(State()))
    {
      if k.deletable && keyring.Some? {
        keyring := None;
      }
      if keyFile.Some? {
        keyFile := None;
      }
      meta := None;
    }
  }

  // ----- refinement of a single cell -----

  /** One optional identity and its keyid length. */
  datatype Cell = Cell(identity: Option<Key32>, keyidLen: Option<nat>)

  datatype Op = SaveOp(secret: Key32, len: nat, force: bool) | LoadOp | WipeOp | LenOp
  datatype Answer = Saved(done: bool) | Loaded(identity: Option<Key32>) | Wiped | Len(n: nat)

  function CellStep(s: Cell, op: Op): (Cell, Answer) {
    match op
    case SaveOp(secret, len, force) =>
      if s.identity.Some? && !force then (s, Saved(false)) else (Cell(Some(secret), Some(len)), Saved(true))
    case LoadOp => (s, Loaded(s.identity))
    case WipeOp => (Cell(None, None), Wiped)
    case LenOp => (s, Len(if s.keyidLen.Some? then s.keyidLen.value else DEFAULT_KEYID_LEN))
  }

  function DiskStep(k: Keyring, d: Disk, op: Op): (Disk, Answer) {
    match op
    case SaveOp(secret, len, force) => (Save(k, d, secret, len, force), Saved(!SaveRefused(k, d, force)))
    case LoadOp => (d, Loaded(match Load(k, d) case Ok(key) => Some(key) case Err(_) => None))
    case WipeOp => (Wipe(k, d), Wiped)
    case LenOp => (d, Len(LoadKeyidLen(d)))
  }

  function CellAnswers(s: Cell, ops: seq<Op>): seq<Answer>
    decreases |ops|
  {
    if ops == [] then [] else var (t, a) := CellStep(s, ops[0]); [a] + CellAnswers(t, ops[1..])
  }

  function DiskAnswers(k: Keyring, d: Disk, ops: seq<Op>): seq<Answer>
    decreases |ops|
  {
    if ops == [] then [] else var (t, a) := DiskStep(k, d, ops[0]); [a] + DiskAnswers(k, t, ops[1..])
  }

  /** When the machine behaves as one cell: a keyring that takes writes can also be read and
      cleared; one that does not has nothing to show now; and no corrupt key file is in view. */
  predicate OneCell(k: Keyring, d: Disk) {
    && (if k.writable then k.readable && k.deletable else KeyringLoad(k, d) == None)
    && (KeyringLoad(k, d) == None && d.keyFile.Some? ==> |d.keyFile.value| == 32)
  }

  function Abstract(k: Keyring, d: Disk): Cell {
    Cell(match Load(k, d) case Ok(key) => Some(key) case Err(_) => None, d.meta)
  }

  lemma {:induction false} StepRefines(k: Keyring, d: Disk, op: Op)
    requires OneCell(k, d)
    ensures var (t, a) := DiskStep(k, d, op);
      OneCell(k, t) && CellStep(Abstract(k, d), op) == (Abstract(k, t), a)
  {
  }

  /** Any sequence of saves, loads and wipes answers as one optional cell would. */
  lemma {:induction false} RefinesCell(k: Keyring, d: Disk, ops: seq<Op>)
    requires OneCell(k, d)
    ensures DiskAnswers(k, d, ops) == CellAnswers(Abstract(k, d), ops)
    decreases |ops|
  {
    if ops != [] {
      StepRefines(k, d, ops[0]);
      RefinesCell(k, DiskStep(k, d, ops[0]).0, ops[1..]);
    }
  }

  lemma {:induction false} ThreeAnswers(k: Keyring, d: Disk, s: Cell, a: Op, b: Op, c: Op)
    requires DiskAnswers(k, d, [a, b, c]) == CellAnswers(s, [a, b, c])
    ensures var (d1, s1) := (DiskStep(k, d, a), CellStep(s, a));
      var (d2, s2) := (DiskStep(k, d1.0, b), CellStep(s1.0, b));
      d1.1 == s1.1 && d2.1 == s2.1 && DiskStep(k, d2.0, c).1 == CellStep(s2.0, c).1
  {
    FirstAnswer(k, d, s, [a, b, c]);
    FirstAnswer(k, DiskStep(k, d, a).0, CellStep(s, a).0, [b, c]);
    FirstAnswer(k, DiskStep(k, DiskStep(k, d, a).0, b).0, CellStep(CellStep(s, a).0, b).0, [c]);
    assert [a, b, c][1..] == [b, c] && [b, c][1..] == [c];
  }

  lemma {:induction false} FirstAnswer(k: Keyring, d: Disk, s: Cell, ops: seq<Op>)
    requires ops != [] && DiskAnswers(k, d, ops) == CellAnswers(s, ops)
    ensures DiskStep(k, d, ops[0]).1 == CellStep(s, ops[0]).1
    ensures DiskAnswers(k, DiskStep(k, d, ops[0]).0, ops[1..]) == CellAnswers(CellStep(s, ops[0]).0, ops[1..])
  {
    var x, y := DiskAnswers(k, d, ops), CellAnswers(s, ops);
    assert x[0] == y[0] && x[1..] == y[1..];
  }

  /** A sequence of operations telling the machine from the cell `s`, when it is not one. */
  lemma {:induction false} Distinguished(k: Keyring, d: Disk, s: Cell) returns (ops: seq<Op>)
    requires !OneCell(k, d)
    ensures DiskAnswers(k, d, ops) != CellAnswers(s, ops)
  {
    var zeros, ones := seq(32, _ => 0), seq(32, _ => 1);
    assert zeros[0] != ones[0];
    var other: Key32 := if KeyringLoad(k, d) == Some(zeros) then ones else zeros;
    if k.writable && !(k.readable && k.deletable) {
      ops := [SaveOp(other, 0, true), if k.readable then WipeOp else LoadOp, LoadOp];
    } else if !k.writable && KeyringLoad(k, d).Some? {
      ops := [SaveOp(other, 0, true), LoadOp, LoadOp];
    } else {
      ops := [LoadOp, SaveOp(other, 0, false), LoadOp];
    }
    if DiskAnswers(k, d, ops) == CellAnswers(s, ops) {
      ThreeAnswers(k, d, s, ops[0], ops[1], ops[2]);
      assert false;
    }
  }

  ghost predicate BehavesAs(k: Keyring, d: Disk, s: Cell) {
    forall ops :: DiskAnswers(k, d, ops) == CellAnswers(s, ops)
  }

  /** The machine behaves as some cell exactly under the condition; otherwise every cell is told
      from it by some sequence of operations. */
  lemma {:induction false} RefinesCellExactly(k: Keyring, d: Disk)
    ensures (exists s :: BehavesAs(k, d, s)) <==> OneCell(k, d)
  {
    if OneCell(k, d) {
      forall ops ensures DiskAnswers(k, d, ops) == CellAnswers(Abstract(k, d), ops) {
        RefinesCell(k, d, ops);
      }
      assert BehavesAs(k, d, Abstract(k, d));
    } else {
      forall s ensures !BehavesAs(k, d, s) {
        var ops := Distinguished(k, d, s);
      }
    }
  }

  /** For any keyring at all: an unforced save never changes an existing identity, and a save that
      goes through is read back exactly when what was written is what reads look at first. */
  lemma {:induction false} LoadAfterSave(k: Keyring, d: Disk, secret: Key32, len: nat, force: bool)
    ensures SaveRefused(k, d, force) ==> Save(k, d, secret, len, force) == d
    ensures !SaveRefused(k, d, force) ==>
      var t := Save(k, d, secret, len, force);
      && LoadKeyidLen(t) == len && (k.writable ==> t.keyring == Some(secret) && t.keyFile == None)
      && (!k.writable ==> t.keyring == d.keyring && t.keyFile == Some(secret))
      && (Load(k, t) == Ok(secret) <==>
            if k.writable then k.readable else KeyringLoad(k, d) in {None, Some(secret)})
  {
  }

  /** A keyring that reads but no longer writes makes a forced save go unnoticed. */
  lemma {:induction false} StaleKeyringShadowsSave(before: Key32, after: Key32, len: nat)
    requires before != after
    ensures var k, d := Keyring(true, false, false), Disk(Some(before), None, None);
      var t := Save(k, d, after, len, true);
      !SaveRefused(k, d, true) && t.keyFile == Some(after) && Load(k, t) == Ok(before)
  {
  }

  /** Wiping leaves nothing to load exactly when the keyring entry goes or cannot be read. */
  lemma {:induction false} LoadAfterWipe(k: Keyring, d: Disk)
    ensures Load(k, Wipe(k, d)) == Err(NotFound) <==> k.deletable || KeyringLoad(k, d) == None
    ensures LoadKeyidLen(Wipe(k, d)) == 26 && Wipe(k, d).keyFile == None
  {
  }
}
