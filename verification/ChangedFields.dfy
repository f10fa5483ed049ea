/** The audit diff: which fields differ between two records, with their values before and after. */
module ChangedFields {
  import opened Common

  /** A field value; `Nil` is Go's nil, which a record may also hold. Equality is deep equality. */
  datatype Value = Nil | Json(text: string)

  type Fields = map<string, Value>

  function OrEmpty(fields: Option<Fields>): Fields {
    if fields.Some? then fields.value else map[]
  }

  predicate Differs(before: Fields, after: Fields, key: string) {
    (key in before) != (key in after) || (key in before && before[key] != after[key])
  }

  /** Exactly the keys that differ, each with its value in `side`, or nil where `side` lacks it. */
  ghost predicate IsSide(changes: Fields, side: Fields, before: Fields, after: Fields) {
    && (forall key :: key in changes <==> Differs(before, after, key))
    && (forall key :: key in changes ==> changes[key] == if key in side then side[key] else Nil)
  }

  ghost predicate IsDiff(before: Fields, after: Fields, beforeChanges: Fields, afterChanges: Fields) {
    IsSide(beforeChanges, before, before, after) && IsSide(afterChanges, after, before, after)
  }

  /** A missing record counts as empty; both records are visited in any order. */
  method Diff(recordBefore: Option<Fields>, recordAfter: Option<Fields>)
    returns (beforeChanges: Fields, afterChanges: Fields)
    ensures IsDiff(OrEmpty(recordBefore), OrEmpty(recordAfter), beforeChanges, afterChanges)
    ensures beforeChanges.Keys == afterChanges.Keys
  {
    var before, after := OrEmpty(recordBefore), OrEmpty(recordAfter);
    beforeChanges, afterChanges := map[], map[];
    var rest := before.Keys;
    while rest != {}
      invariant rest <= before.Keys
      invariant forall key :: key in beforeChanges <==> key in before && key !in rest && Differs(before, after, key)
      invariant forall key :: key in afterChanges <==> key in before && key !in rest && Differs(before, after, key)
      invariant forall key :: key in beforeChanges ==> beforeChanges[key] == before[key]
      invariant forall key :: key in afterChanges ==> afterChanges[key] == if key in after then after[key] else Nil
      decreases rest
    {
      var key :| key in rest;
      if key !in after || before[key] != after[key] {
        beforeChanges := beforeChanges[key := before[key]];
        afterChanges := afterChanges[key := if key in after then after[key] else Nil];
      }
      rest := rest - {key};
    }
    rest := after.Keys;
    while rest != {}
      invariant rest <= after.Keys
      invariant forall key :: key in beforeChanges <==> Differs(before, after, key) && (key in before || key !in rest)
      invariant forall key :: key in afterChanges <==> Differs(before, after, key) && (key in before || key !in rest)
      invariant forall key :: key in beforeChanges ==> beforeChanges[key] == if key in before then before[key] else Nil
      invariant forall key :: key in afterChanges ==> afterChanges[key] == if key in after then after[key] else Nil
      decreases rest
    {
      var key :| key in rest;
      if key !in before {
        beforeChanges := beforeChanges[key := Nil];
        afterChanges := afterChanges[key := after[key]];
      }
      rest := rest - {key};
    }
  }

  /** A diff is determined by the two records, so swapping them swaps its two sides. */
  lemma SwappingSwaps(before: Fields, after: Fields, b: Fields, a: Fields, b': Fields, a': Fields)
    requires IsDiff(before, after, b, a) && IsDiff(after, before, b', a')
    ensures b' == a && a' == b
  {
    assert forall key :: Differs(before, after, key) <==> Differs(after, before, key);
    assert forall key :: key in b' <==> key in a;
    assert forall key :: key in a' <==> key in b;
  }

  /** Applying one side of a diff: nil removes the field. */
  function Patch(fields: Fields, changes: Fields): Fields {
    map key | key in fields.Keys + changes.Keys && !(key in changes && changes[key] == Nil)
      :: if key in changes then changes[key] else fields[key]
  }

  /** The after side is a patch: it turns the record before into the record after, exactly when the
      record after holds no nil among the fields that changed. */
  lemma PatchGivesAfter(before: Fields, after: Fields, b: Fields, a: Fields)
    requires IsDiff(before, after, b, a)
    ensures Patch(before, a) == after <==>
            forall key :: key in after && Differs(before, after, key) ==> after[key] != Nil
  {
  }
}
