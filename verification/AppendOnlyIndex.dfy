/** The lookup arrays of the registries: per address, the identifiers recorded for it, in order. */
module AppendOnlyIndex {
  import opened Evm

  /** `mapping(address => bytes32[])`, an unwritten entry reading as the empty array. */
  type Index = map<Address, seq<Bytes32>>

  function Listed(index: Index, who: Address): seq<Bytes32> {
    if who in index then index[who] else []
  }

  function Push(index: Index, who: Address, id: Bytes32): (index': Index)
    ensures Listed(index', who) == Listed(index, who) + [id]
    ensures forall other: Address | other != who :: Listed(index', other) == Listed(index, other)
  {
    index[who := Listed(index, who) + [id]]
  }

  /** What an index is about: for each stored identifier, the address it is listed under and its time of issue. */
  datatype Entry = Entry(who: Address, issuedAt: Uint256)

  /** `ids` lists the identifiers entered for `who` and no others, each once, in order of issue. */
  ghost predicate ListExact(entries: map<Bytes32, Entry>, who: Address, ids: seq<Bytes32>) {
    && (forall id: Bytes32 :: id in ids <==> id in entries && entries[id].who == who)
    && (forall i, j | 0 <= i < j < |ids| :: ids[i] != ids[j])
    && (forall i, j | 0 <= i < j < |ids| :: entries[ids[i]].issuedAt <= entries[ids[j]].issuedAt)
  }

  ghost predicate IndexExact(entries: map<Bytes32, Entry>, index: Index) {
    forall who: Address :: ListExact(entries, who, Listed(index, who))
  }

  /** Pushing a new identifier that is no older than any other keeps the index exact. */
  lemma PushKeepsExact(entries: map<Bytes32, Entry>, index: Index, id: Bytes32, entry: Entry)
    requires IndexExact(entries, index) && id !in entries
    requires forall other | other in entries :: entries[other].issuedAt <= entry.issuedAt
    ensures IndexExact(entries[id := entry], Push(index, entry.who, id))
  {
    var entries' := entries[id := entry];
    var index' := Push(index, entry.who, id);
    forall who: Address ensures ListExact(entries', who, Listed(index', who)) {
      var ids, ids' := Listed(index, who), Listed(index', who);
      assert ListExact(entries, who, ids);
      assert forall i | 0 <= i < |ids| :: ids[i] in ids && ids[i] in entries;
      assert ids' == if who == entry.who then ids + [id] else ids;
    }
  }

  /** What the index of the records in `m` should hold, given what one record is entered as. */
  function Entries<R>(m: map<Bytes32, R>, entryOf: R -> Entry): (entries: map<Bytes32, Entry>)
    ensures entries.Keys == m.Keys
  {
    map id | id in m :: entryOf(m[id])
  }

  /** Storing a new record and pushing its identifier keeps the index exact. */
  lemma InsertKeepsExact<R>(m: map<Bytes32, R>, entryOf: R -> Entry, index: Index, id: Bytes32, record: R)
    requires IndexExact(Entries(m, entryOf), index) && id !in m
    requires forall other | other in m :: entryOf(m[other]).issuedAt <= entryOf(record).issuedAt
    ensures IndexExact(Entries(m[id := record], entryOf), Push(index, entryOf(record).who, id))
  {
    PushKeepsExact(Entries(m, entryOf), index, id, entryOf(record));
    assert Entries(m[id := record], entryOf) == Entries(m, entryOf)[id := entryOf(record)];
  }

  /** Changing a record in what is not entered leaves the entries as they are. */
  lemma UpdateKeepsEntries<R>(m: map<Bytes32, R>, entryOf: R -> Entry, id: Bytes32, record: R)
    requires id in m && entryOf(record) == entryOf(m[id])
    ensures Entries(m[id := record], entryOf) == Entries(m, entryOf)
  {
  }
}
