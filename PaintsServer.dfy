/**
 * The `transform` function of the paints endpoint: a loop over the rows that
 * fills an insertion-ordered map from key to group, then lists the map's
 * values. The JavaScript `Map` is modelled by a Dafny `map` together with
 * the sequence of its keys in insertion order.
 */
module PaintsServer {
  import opened Wrappers
  import opened RowNormalization
  import opened Grouping

  /**
   * The map holds, in insertion order `order`, the grouping of the
   * normalised rows `done`: one group per key, whose `hex` is its key and
   * whose equivalents are that key's entries.
   */
  ghost predicate Holds(done: seq<Option<Item>>, order: seq<string>, groups: map<string, Group>)
  {
    && order == Keys(done)
    && (forall k :: k in groups <==> k in order)
    && (forall k | k in groups :: groups[k] == Group(k, EntriesOf(done, k)))
  }

  /**
   * The `map.has`/`map.set`/`push` step, for one row that survived
   * normalisation: create the group the first time its key is seen, then
   * push the entry onto it.
   */
  method AddItem(ghost done: seq<Option<Item>>, order: seq<string>, groups: map<string, Group>, item: Item)
    returns (order': seq<string>, groups': map<string, Group>)
    requires Holds(done, order, groups)
    ensures Holds(done + [Some(item)], order', groups')
  {
    FoldStep(done, Some(item));
    order', groups' := order, groups;
    var hex := item.hex;
    if hex !in groups' {
      EntriesOfEmpty(done, hex);
      groups' := groups'[hex := Group(hex, [])];
      order' := order' + [hex];
    }
    groups' := groups'[hex := groups'[hex].(equivalents := groups'[hex].equivalents + [item.entry])];
  }

  /**
   * The `for (const row of rows)` loop filling `map`: afterwards, `order` lists the keys in the order
   * `map.set` first inserted them, and `groups` holds, under each key, the
   * group whose `hex` is that key and whose equivalents are the entries of
   * the rows with that key.
   */
  method BuildMap(rows: seq<Row>) returns (order: seq<string>, groups: map<string, Group>)
    ensures order == Keys(Normalized(rows))
    ensures forall k :: k in groups <==> k in order
    ensures forall k | k in groups :: groups[k].hex == k && groups[k].equivalents != []
    ensures forall k | k in groups :: groups[k].equivalents == EntriesOf(Normalized(rows), k)
  {
    order, groups := [], map[];
    for n := 0 to |rows|
      invariant Holds(Normalized(rows[..n]), order, groups)
    {
      ghost var done := Normalized(rows[..n]);
      var item := Normalize(rows[n]);
      NormalizedExtends(rows, n);
      if item.None? {
        FoldStep(done, item);
        continue;
      }
      order, groups := AddItem(done, order, groups, item.value);
    }
    assert rows[..|rows|] == rows;
    forall k | k in groups ensures groups[k].equivalents != [] {
      EntriesOfEmpty(Normalized(rows), k);
    }
  }

  /**
   * `transform(rows)`: `Array.from(map.values())` lists the groups in the
   * map's insertion order, which is the specification `Grouped`.
   */
  method Transform(rows: seq<Row>) returns (result: seq<Group>)
    ensures result == Grouped(Normalized(rows))
  {
    var order, groups := BuildMap(rows);
    result := seq(|order|, i requires 0 <= i < |order| => groups[order[i]]);
  }

  /**
   * Two surviving rows with one key followed by a skipped row give one
   * group holding both entries in row order.
   */
  lemma WorkedExampleGrouped(it0: Item, it1: Item)
    requires it0.hex == it1.hex
    ensures Grouped([Some(it0), Some(it1), None]) == [Group(it0.hex, [it0.entry, it1.entry])]
  {
    var none: seq<Option<Item>> := [];
    assert Grouped(none) == [];
    NewKeyAddsGroup(none, Some(it0));
    assert none + [Some(it0)] == [Some(it0)];
    var g1 := Grouped([Some(it0)]);
    assert g1 == [Group(it0.hex, [it0.entry])];
    KnownKeyAppendsEntry([Some(it0)], Some(it1), 0);
    assert [Some(it0)] + [Some(it1)] == [Some(it0), Some(it1)];
    assert [it0.entry] + [it1.entry] == [it0.entry, it1.entry];
    assert g1[0 := Group(it0.hex, [it0.entry, it1.entry])] == [Group(it0.hex, [it0.entry, it1.entry])];
    DroppedRowChangesNothing([Some(it0), Some(it1)], None);
    assert [Some(it0), Some(it1)] + [None] == [Some(it0), Some(it1), None];
  }

  /**
   * The worked example: `#ABC123` and `abc123` share one group, in row
   * order, and the row whose `hex` is empty is skipped.
   */
  lemma WorkedExample()
    ensures Grouped(Normalized([
              Row(Some("#ABC123"), Some("Red X"), Some("Set A")),
              Row(Some("abc123"), Some("Red Y"), Some("Set B")),
              Row(Some(""), Some("Ignore"), Some("Set C"))]))
         == [Group("abc123", [Entry("Red X", "Set A"), Entry("Red Y", "Set B")])]
  {
    WorkedExampleFirstRow();
    WorkedExampleSecondRow();
    SkippedExamples();
    NormalizedThree(
      Row(Some("#ABC123"), Some("Red X"), Some("Set A")),
      Row(Some("abc123"), Some("Red Y"), Some("Set B")),
      Row(Some(""), Some("Ignore"), Some("Set C")));
    WorkedExampleGrouped(Item("abc123", Entry("Red X", "Set A")), Item("abc123", Entry("Red Y", "Set B")));
  }
}
