/** The Ingestion repositories: one table of records per kind, keyed by
    Reference. Writes go through the context's change tracker: a write is
    applied to the table and counted as pending, and `SaveChanges` reports how
    many pending changes it wrote. */
module Repositories {
  import opened Wrappers
  import opened Entities

  /** A table indexed by Reference. */
  ghost predicate IsKeyed(rows: map<string, Record>) {
    forall k :: k in rows ==> rows[k].reference == k
  }

  /** The references of a batch are all different. */
  predicate DistinctReferences(es: seq<Record>) {
    forall i, j :: 0 <= i < j < |es| ==> es[i].reference != es[j].reference
  }

  /** A batch can be stored: no reference is already in the table or repeated. */
  predicate CanInsertAll(rows: map<string, Record>, es: seq<Record>) {
    && (forall i :: 0 <= i < |es| ==> es[i].reference !in rows)
    && DistinctReferences(es)
  }

  /** The rows a batch adds, keyed by Reference. */
  function Keyed(es: seq<Record>): (m: map<string, Record>)
    ensures m.Keys == set i | 0 <= i < |es| :: es[i].reference
    ensures IsKeyed(m)
  {
    if es == [] then map[]
    else Keyed(es[..|es| - 1])[es[|es| - 1].reference := es[|es| - 1]]
  }

  lemma KeyedStep(es: seq<Record>, i: nat)
    requires i < |es|
    ensures Keyed(es[..i + 1]) == Keyed(es[..i])[es[i].reference := es[i]]
  {
    assert es[..i + 1][..i] == es[..i];
  }

  /** An empty batch can always be stored and adds nothing. */
  lemma InsertNothing(rows: map<string, Record>)
    ensures CanInsertAll(rows, [])
    ensures rows + Keyed([]) == rows
  {
    assert Keyed([]) == map[];
  }

  lemma UnionUpdate(a: map<string, Record>, b: map<string, Record>, k: string, v: Record)
    ensures (a + b)[k := v] == a + b[k := v]
  {
  }

  class Table {
    const kind: Kind
    var rows: map<string, Record>
    var pending: nat

    /** Between operations the table is keyed and nothing is pending. */
    ghost predicate Valid()
      reads this
    {
      IsKeyed(rows) && pending == 0
    }

    constructor (kind: Kind, initial: map<string, Record>)
      requires IsKeyed(initial)
      ensures Valid() && this.kind == kind && rows == initial
    {
      this.kind := kind;
      rows := initial;
      pending := 0;
    }

    /** `SaveChangesAsync`: writes the pending changes, returns their number. */
    method SaveChanges() returns (written: nat)
      modifies this`pending
      ensures written == old(pending) && pending == 0
    {
      written := pending;
      pending := 0;
    }

    /** `GetAllAsync`: every stored record, each once. */
    method GetAllAsync() returns (all: seq<Record>)
      requires Valid()
      ensures |all| == |rows|
      ensures forall k :: k in rows ==> rows[k] in all
      ensures forall r :: r in all ==> r.reference in rows && rows[r.reference] == r
    {
      var todo := rows.Keys;
      all := [];
      while todo != {}
        invariant todo <= rows.Keys
        invariant |all| + |todo| == |rows|
        invariant forall k :: k in rows && k !in todo ==> rows[k] in all
        invariant forall r :: r in all ==> r.reference in rows && r.reference !in todo && rows[r.reference] == r
        decreases |todo|
      {
        var k :| k in todo;
        all := all + [rows[k]];
        todo := todo - {k};
      }
    }

    /** `GetByReferenceAsync`: the record with that Reference, or null. */
    method GetByReferenceAsync(reference: string) returns (found: Option<Record>)
      requires Valid()
      ensures found.Some? ==> found.value in rows.Values && found.value.reference == reference
      ensures found.None? ==> forall r :: r in rows.Values ==> r.reference != reference
    {
      if reference in rows {
        found := Some(rows[reference]);
      } else {
        found := None;
      }
    }

    /** `InsertAsync`: adds the entity and returns it. A Reference already
        stored is a key violation of the store. */
    method InsertAsync(entity: Record) returns (r: Result<Record>)
      requires Valid()
      modifies this
      ensures Valid()
      ensures r.Success? <==> entity.reference !in old(rows)
      ensures r.Success? ==> r.value == entity && rows == old(rows)[entity.reference := entity]
      ensures r.Failure? ==> rows == old(rows)
    {
      if entity.reference in rows {
        return Failure("duplicate key " + entity.reference);
      }
      rows := rows[entity.reference := entity];
      pending := pending + 1;
      var _ := SaveChanges();
      r := Success(entity);
    }

    /** `InsertBulkAsync`: adds every entity in one store operation and returns
        the same list; a key violation stores none of them. */
    method InsertBulkAsync(entities: seq<Record>) returns (r: Result<seq<Record>>)
      requires Valid()
      modifies this
      ensures Valid()
      ensures r.Success? <==> CanInsertAll(old(rows), entities)
      ensures r.Success? ==> r.value == entities && rows == old(rows) + Keyed(entities)
      ensures r.Failure? ==> rows == old(rows)
    {
      if !CanInsertAll(rows, entities) {
        return Failure("duplicate key in bulk insert");
      }
      ghost var before := rows;
      var i := 0;
      while i < |entities|
        invariant 0 <= i <= |entities|
        invariant rows == before + Keyed(entities[..i])
        invariant pending == 0
      {
        KeyedStep(entities, i);
        UnionUpdate(before, Keyed(entities[..i]), entities[i].reference, entities[i]);
        rows := rows[entities[i].reference := entities[i]];
        i := i + 1;
      }
      assert entities[..i] == entities;
      assert IsKeyed(Keyed(entities));
      var _ := SaveChanges();
      r := Success(entities);
    }

    /** `UpdateAsync`: overwrites every field of the stored record with the same
        Reference. Updating a Reference that is not stored affects no row,
        which the store reports as a concurrency failure. */
    method UpdateAsync(entity: Record) returns (r: Result<Record>)
      requires Valid()
      modifies this
      ensures Valid()
      ensures r.Success? <==> entity.reference in old(rows)
      ensures r.Success? ==> r.value == entity && rows == old(rows)[entity.reference := entity]
      ensures r.Failure? ==> rows == old(rows)
    {
      if entity.reference !in rows {
        return Failure("no row with key " + entity.reference);
      }
      rows := rows[entity.reference := entity];
      pending := pending + 1;
      var _ := SaveChanges();
      r := Success(entity);
    }

    /** `DeleteAsync`: removes the record with that Reference and reports
        whether a row was written. On a miss the invoice table answers `false`
        at once, the credit-note table answers `SaveChanges() > 0` with nothing
        pending; both are `false`. */
    method DeleteAsync(reference: string) returns (deleted: bool)
      requires Valid()
      modifies this
      ensures Valid()
      ensures deleted <==> reference in old(rows)
      ensures rows == old(rows) - {reference}
    {
      if reference !in rows {
        if kind == Invoice {
          return false;
        }
        var written := SaveChanges();
        return written > 0;
      }
      rows := rows - {reference};
      pending := pending + 1;
      var written := SaveChanges();
      deleted := written > 0;
    }
  }
}
