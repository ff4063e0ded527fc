/** The entries of a struct's map, in any order: each field once, none repeated, others skipped. */
module Entries {
  import opened Bytes
  import opened Cbor
  import opened Reader

  /** One of the struct's fields, by its place in the declaration, or something under another name. */
  datatype Entry = Known(j: nat) | Unknown(part: Part)

  /** How a struct is read: field by field; the parts its fields are written as; and the draft once
      a set of the fields has been read. */
  datatype Shape<!D> = Shape(field: FieldReader<D>, parts: seq<Part>, draft: set<nat> -> D)

  predicate Short(ps: seq<Part>) { forall p | p in ps :: |p.name| < 24 }

  /** Each field is taken once, in whatever order. */
  ghost predicate TakesOnce<D(!new)>(sh: Shape<D>) {
    && Consumes(sh.field) && Short(sh.parts)
    && forall j, seen: set<nat>, rest :: 0 <= j < |sh.parts| ==>
         sh.field(sh.parts[j].name, sh.draft(seen), sh.parts[j].value + rest)
         == if j in seen then Bad else Got(sh.draft(seen + {j}), rest)
  }

  /** A field of the struct, or a part that is passed over. */
  ghost predicate EntryOk<D(!new)>(sh: Shape<D>, e: Entry) {
    match e
    case Known(j) => j < |sh.parts|
    case Unknown(p) =>
      && |p.name| < 24
      && forall seen: set<nat>, rest :: sh.field(p.name, sh.draft(seen), p.value + rest) == Got(sh.draft(seen), rest)
  }

  ghost predicate EntriesOk<D(!new)>(sh: Shape<D>, es: seq<Entry>) {
    forall i :: 0 <= i < |es| ==> EntryOk(sh, es[i])
  }

  predicate InRange(parts: seq<Part>, es: seq<Entry>) {
    forall i :: 0 <= i < |es| ==> match es[i] case Known(j) => j < |parts| case Unknown(p) => |p.name| < 24
  }

  /** The entries as they are written. */
  function Written(parts: seq<Part>, es: seq<Entry>): (ps: seq<Part>)
    requires Short(parts) && InRange(parts, es)
    ensures |ps| == |es| && Short(ps)
    ensures forall i :: 0 <= i < |es| ==> ps[i] == match es[i] case Known(j) => parts[j] case Unknown(p) => p
  {
    seq(|es|, i requires 0 <= i < |es| => match es[i] case Known(j) => parts[j] case Unknown(p) => p)
  }

  /** The fields among the entries. */
  function Seen(es: seq<Entry>): set<nat> { set i | 0 <= i < |es| && es[i].Known? :: es[i].j }

  predicate Repeats(es: seq<Entry>, k: nat) { k < |es| && es[k].Known? && es[k].j in Seen(es[..k]) }

  /** Each of `n` fields is there exactly once. */
  ghost predicate EachOnce(es: seq<Entry>, n: nat) {
    && (forall j :: 0 <= j < n ==> Known(j) in es)
    && forall i, k :: 0 <= i < k < |es| && es[i].Known? ==> es[i] != es[k]
  }

  lemma {:induction false} SeenExact(es: seq<Entry>)
    ensures forall j :: j in Seen(es) <==> Known(j) in es
  {
    forall j | Known(j) in es ensures j in Seen(es) {
      var i :| 0 <= i < |es| && es[i] == Known(j);
      assert es[i].j == j;
    }
  }

  lemma {:induction false} SeenOneMore(es: seq<Entry>, k: nat)
    requires k < |es|
    ensures Seen(es[..k + 1]) == if es[k].Known? then Seen(es[..k]) + {es[k].j} else Seen(es[..k])
  {
    assert es[..k + 1] == es[..k] + [es[k]];
    assert forall j :: j in Seen(es[..k]) ==> j in Seen(es[..k + 1]);
  }

  lemma {:induction false} FirstRepeat(es: seq<Entry>, k: nat) returns (m: nat)
    requires Repeats(es, k)
    ensures Repeats(es, m) && forall i :: 0 <= i < m ==> !Repeats(es, i)
    decreases k
  {
    m := k;
    if i :| 0 <= i < k && Repeats(es, i) {
      m := FirstRepeat(es, i);
    }
  }

  lemma {:induction false} NoneRepeats(es: seq<Entry>)
    ensures (forall k :: !Repeats(es, k)) <==> forall i, k :: 0 <= i < k < |es| && es[i].Known? ==> es[i] != es[k]
  {
    if k: nat :| Repeats(es, k) {
      var i :| 0 <= i < k && es[..k][i].Known? && es[..k][i].j == es[k].j;
      assert es[i] == es[k];
    }
    if i, k :| 0 <= i < k < |es| && es[i].Known? && es[i] == es[k] {
      assert es[..k][i] == es[i];
      assert Repeats(es, k);
    }
  }

  // ----- reading them -----

  /** The drafts as the entries arrive. */
  function Drafts<D>(sh: Shape<D>, es: seq<Entry>): (ds: seq<D>)
    ensures |ds| == |es| + 1 && forall i :: 0 <= i <= |es| ==> ds[i] == sh.draft(Seen(es[..i]))
  {
    seq(|es| + 1, i requires 0 <= i <= |es| => sh.draft(Seen(es[..i])))
  }

  lemma {:induction false} EntryStep<D(!new)>(sh: Shape<D>, es: seq<Entry>, k: nat, rest: bytes)
    requires TakesOnce(sh) && EntriesOk(sh, es) && InRange(sh.parts, es) && k < |es|
    ensures var p := Written(sh.parts, es)[k];
      sh.field(p.name, Drafts(sh, es)[k], p.value + rest)
      == if Repeats(es, k) then Bad else Got(Drafts(sh, es)[k + 1], rest)
  {
    assert EntryOk(sh, es[k]);
    SeenOneMore(es, k);
  }

  lemma {:induction false} EntriesFill<D(!new)>(sh: Shape<D>, es: seq<Entry>, n: nat)
    requires TakesOnce(sh) && EntriesOk(sh, es) && InRange(sh.parts, es)
    requires n <= |es| && forall k :: 0 <= k < n ==> !Repeats(es, k)
    ensures FillsUpTo(sh.field, Written(sh.parts, es), Drafts(sh, es), n)
  {
    var ps, ds := Written(sh.parts, es), Drafts(sh, es);
    forall j, rest | 0 <= j < n ensures sh.field(ps[j].name, ds[j], ps[j].value + rest) == Got(ds[j + 1], rest) {
      EntryStep(sh, es, j, rest);
    }
  }

  lemma {:induction false} DraftsEnds<D(!new)>(sh: Shape<D>, es: seq<Entry>)
    ensures Drafts(sh, es)[0] == sh.draft({}) && Drafts(sh, es)[|es|] == sh.draft(Seen(es))
  {
    assert es[..0] == [] && es[..|es|] == es;
    assert Seen([]) == {};
  }

  lemma {:induction false} EntryRefused<D(!new)>(sh: Shape<D>, es: seq<Entry>, m: nat)
    requires TakesOnce(sh) && EntriesOk(sh, es) && InRange(sh.parts, es) && Repeats(es, m)
    ensures Refuses(sh.field, Written(sh.parts, es)[m], Drafts(sh, es)[m])
  {
    var p := Written(sh.parts, es)[m];
    forall tail ensures sh.field(p.name, Drafts(sh, es)[m], p.value + tail) == Bad {
      EntryStep(sh, es, m, tail);
    }
  }

  /** A map in which a field repeats is refused. */
  lemma {:induction false} WithRepeat<D(!new)>(sh: Shape<D>, es: seq<Entry>, k: nat, rest: bytes)
    requires TakesOnce(sh) && EntriesOk(sh, es) && InRange(sh.parts, es) && |es| < 24 && Repeats(es, k)
    ensures ReadMap(sh.field, [0xA0 + |es|] + Laid(Written(sh.parts, es)) + rest, sh.draft({})) == Bad
  {
    var m := FirstRepeat(es, k);
    EntriesFill(sh, es, m);
    EntryRefused(sh, es, m);
    DraftsEnds(sh, es);
    MapRefused(sh.field, Written(sh.parts, es), Drafts(sh, es), m, rest);
  }

  /** Any other is read into the draft of the fields it has. */
  lemma {:induction false} WithoutRepeat<D(!new)>(sh: Shape<D>, es: seq<Entry>, rest: bytes)
    requires TakesOnce(sh) && EntriesOk(sh, es) && InRange(sh.parts, es) && |es| < 24 && forall k :: !Repeats(es, k)
    ensures ReadMap(sh.field, [0xA0 + |es|] + Laid(Written(sh.parts, es)) + rest, sh.draft({}))
         == Got(sh.draft(Seen(es)), rest)
  {
    EntriesFill(sh, es, |es|);
    DraftsEnds(sh, es);
    MapRead(sh.field, Written(sh.parts, es), Drafts(sh, es), rest);
  }
}
