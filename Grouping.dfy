/**
 * What `transform` returns, stated without the loop. The rows are first
 * normalised one by one (`Normalized`); the result is the distinct keys of
 * the surviving rows in first-seen order, each with the entries of its own
 * rows in row order. `Keys`, `EntriesOf` and `ValidEntries` are left folds,
 * defined on the last row as the loop performs them; `Grouped` pairs each
 * key with its entries.
 */
module Grouping {
  import opened Wrappers
  import opened JsStrings
  import opened RowNormalization

  /** One element of the result: a key and its `{name, range}` equivalents. */
  datatype Group = Group(hex: string, equivalents: seq<Entry>)

  /** `f` applied to each element of `xs`, in order. */
  function MapSeq<A, B>(f: A -> B, xs: seq<A>): (ys: seq<B>)
    ensures |ys| == |xs|
    ensures forall p | 0 <= p < |xs| :: ys[p] == f(xs[p])
  {
    seq(|xs|, p requires 0 <= p < |xs| => f(xs[p]))
  }

  /** Mapping one more element appends its image. */
  lemma MapSeqExtends<A, B>(f: A -> B, xs: seq<A>, n: int)
    requires 0 <= n < |xs|
    ensures MapSeq(f, xs[..n + 1]) == MapSeq(f, xs[..n]) + [f(xs[n])]
  {
    var a, b := MapSeq(f, xs[..n + 1]), MapSeq(f, xs[..n]) + [f(xs[n])];
    forall p | 0 <= p <= n ensures a[p] == b[p] {
      assert xs[..n + 1][p] == xs[p];
      if p < n {
        assert xs[..n][p] == xs[p];
      }
    }
  }

  /** Each row run through `Normalize`, in row order. */
  function Normalized(rows: seq<Row>): (items: seq<Option<Item>>)
    ensures |items| == |rows|
  {
    MapSeq(Normalize, rows)
  }

  /** Every surviving row of `Normalized(rows)` is clean. */
  lemma NormalizedAllClean(rows: seq<Row>)
    ensures AllClean(Normalized(rows))
  {
    forall p | 0 <= p < |rows| {
      NormalizeClean(rows[p]);
    }
  }

  /** Normalising three rows gives their three results in order. */
  lemma NormalizedThree(r0: Row, r1: Row, r2: Row)
    ensures Normalized([r0, r1, r2]) == [Normalize(r0), Normalize(r1), Normalize(r2)]
  {
  }

  /** Normalising one more row appends its result. */
  lemma NormalizedExtends(rows: seq<Row>, n: int)
    requires 0 <= n < |rows|
    ensures Normalized(rows[..n + 1]) == Normalized(rows[..n]) + [Normalize(rows[n])]
  {
    MapSeqExtends(Normalize, rows, n);
  }

  /** What `Normalize` guarantees of every surviving row. */
  predicate AllClean(items: seq<Option<Item>>)
  {
    forall p | 0 <= p < |items| && items[p].Some? :: Clean(items[p].value)
  }

  /** Row `p` survives normalisation with key `k`. */
  predicate HexAt(items: seq<Option<Item>>, p: int, k: string)
  {
    0 <= p < |items| && items[p].Some? && items[p].value.hex == k
  }

  /** Some surviving row before row `p` carries key `k`. */
  predicate CarriedBefore(items: seq<Option<Item>>, p: int, k: string)
  {
    exists q :: 0 <= q < p && HexAt(items, q, k)
  }

  /** Row `p` survives normalisation with key `k` and entry `e`. */
  predicate ItemAt(items: seq<Option<Item>>, p: int, k: string, e: Entry)
  {
    0 <= p < |items| && items[p] == Some(Item(k, e))
  }

  /** The distinct keys of the surviving rows, in the order they first occur. */
  function Keys(items: seq<Option<Item>>): seq<string>
  {
    if items == [] then []
    else
      var ks := Keys(items[..|items| - 1]);
      match items[|items| - 1]
      case None => ks
      case Some(it) => if it.hex in ks then ks else ks + [it.hex]
  }

  /** The entries of the surviving rows whose key is `k`, in row order. */
  function EntriesOf(items: seq<Option<Item>>, k: string): seq<Entry>
  {
    if items == [] then []
    else
      var es := EntriesOf(items[..|items| - 1], k);
      match items[|items| - 1]
      case Some(it) => if it.hex == k then es + [it.entry] else es
      case None => es
  }

  /** The entries of all surviving rows, in row order. */
  function ValidEntries(items: seq<Option<Item>>): seq<Entry>
  {
    if items == [] then []
    else
      var es := ValidEntries(items[..|items| - 1]);
      match items[|items| - 1]
      case Some(it) => es + [it.entry]
      case None => es
  }

  /** The result of `transform`, on the normalised rows. */
  function Grouped(items: seq<Option<Item>>): seq<Group>
  {
    var ks := Keys(items);
    seq(|ks|, i requires 0 <= i < |ks| => Group(ks[i], EntriesOf(items, ks[i])))
  }

  /** All equivalents of all groups, group after group. */
  function Flatten(groups: seq<Group>): seq<Entry>
  {
    if groups == [] then []
    else Flatten(groups[..|groups| - 1]) + groups[|groups| - 1].equivalents
  }

  lemma PrefixOfSnoc(items: seq<Option<Item>>, r: Option<Item>)
    ensures (items + [r])[..|items|] == items
    ensures (items + [r])[|items|] == r
  {
  }

  /** One more normalised row, as the loop sees it. */
  lemma FoldStep(items: seq<Option<Item>>, r: Option<Item>)
    ensures r.None? ==> Keys(items + [r]) == Keys(items)
    ensures r.Some? && r.value.hex in Keys(items) ==> Keys(items + [r]) == Keys(items)
    ensures r.Some? && r.value.hex !in Keys(items) ==> Keys(items + [r]) == Keys(items) + [r.value.hex]
    ensures forall k | r.Some? && r.value.hex == k :: EntriesOf(items + [r], k) == EntriesOf(items, k) + [r.value.entry]
    ensures forall k | !(r.Some? && r.value.hex == k) :: EntriesOf(items + [r], k) == EntriesOf(items, k)
  {
    PrefixOfSnoc(items, r);
  }

  /** Adding a row never removes a key. */
  lemma KeysGrow(items: seq<Option<Item>>)
    requires items != []
    ensures forall k | k in Keys(items[..|items| - 1]) :: k in Keys(items)
  {
  }

  /** The key of a surviving last row is among the keys. */
  lemma LastKeyIncluded(items: seq<Option<Item>>)
    requires items != [] && items[|items| - 1].Some?
    ensures items[|items| - 1].value.hex in Keys(items)
  {
  }

  /** Adding a row never removes an entry. */
  lemma EntriesOfGrow(items: seq<Option<Item>>, k: string)
    requires items != []
    ensures forall e | e in EntriesOf(items[..|items| - 1], k) :: e in EntriesOf(items, k)
  {
  }

  /** No key occurs twice among the groups. */
  lemma {:induction false} KeysDistinct(items: seq<Option<Item>>)
    ensures forall i, j | 0 <= i < j < |Keys(items)| :: Keys(items)[i] != Keys(items)[j]
  {
    if items != [] {
      KeysDistinct(items[..|items| - 1]);
    }
  }

  /** The key of every surviving row is among the keys. */
  lemma {:induction false} KeyOfSurvivingRow(items: seq<Option<Item>>, p: int, k: string)
    requires HexAt(items, p, k)
    ensures k in Keys(items)
  {
    var n := |items| - 1;
    if p < n {
      var prev := items[..n];
      assert items[p] == prev[p];
      KeyOfSurvivingRow(prev, p, k);
      KeysGrow(items);
    } else {
      LastKeyIncluded(items);
    }
  }

  /** Every key is the key of some surviving row. */
  lemma {:induction false} SurvivingRowOfKey(items: seq<Option<Item>>, k: string)
    requires k in Keys(items)
    ensures exists p :: HexAt(items, p, k)
  {
    var n := |items| - 1;
    var prev := items[..n];
    if k in Keys(prev) {
      SurvivingRowOfKey(prev, k);
      var p :| HexAt(prev, p, k);
      assert items[p] == prev[p];
      assert HexAt(items, p, k);
    } else {
      assert HexAt(items, n, k);
    }
  }

  /** The keys are exactly the normalised `hex` values of the surviving items. */
  lemma KeysAreValidHexes(items: seq<Option<Item>>)
    ensures forall k :: k in Keys(items) <==> exists p :: HexAt(items, p, k)
  {
    forall k ensures k in Keys(items) <==> exists p :: HexAt(items, p, k) {
      if k in Keys(items) {
        SurvivingRowOfKey(items, k);
      }
      if exists p :: HexAt(items, p, k) {
        var p :| HexAt(items, p, k);
        KeyOfSurvivingRow(items, p, k);
      }
    }
  }

  /** A key has a group exactly when some surviving row carries it, so no group is empty. */
  lemma {:induction false} EntriesOfEmpty(items: seq<Option<Item>>, k: string)
    ensures EntriesOf(items, k) == [] <==> k !in Keys(items)
  {
    if items != [] {
      EntriesOfEmpty(items[..|items| - 1], k);
    }
  }

  /** The entry of every surviving row is among the entries of its key. */
  lemma {:induction false} EntryOfSurvivingRow(items: seq<Option<Item>>, p: int, k: string, e: Entry)
    requires ItemAt(items, p, k, e)
    ensures e in EntriesOf(items, k)
  {
    var n := |items| - 1;
    if p < n {
      var prev := items[..n];
      assert items[p] == prev[p];
      EntryOfSurvivingRow(prev, p, k, e);
      EntriesOfGrow(items, k);
    } else {
      assert EntriesOf(items, k) == EntriesOf(items[..n], k) + [e];
    }
  }

  /** Every entry of key `k` comes from a surviving row whose key is `k`. */
  lemma {:induction false} SurvivingRowOfEntry(items: seq<Option<Item>>, k: string, e: Entry)
    requires e in EntriesOf(items, k)
    ensures exists p :: ItemAt(items, p, k, e)
  {
    var n := |items| - 1;
    var prev := items[..n];
    if e in EntriesOf(prev, k) {
      SurvivingRowOfEntry(prev, k, e);
      var p :| ItemAt(prev, p, k, e);
      assert items[p] == prev[p];
      assert ItemAt(items, p, k, e);
    } else {
      assert ItemAt(items, n, k, e);
    }
  }

  /** The entries of key `k` are the entries of the items whose key is `k`, and only those. */
  lemma EntriesOfMembers(items: seq<Option<Item>>, k: string)
    ensures forall e :: e in EntriesOf(items, k) <==> exists p :: ItemAt(items, p, k, e)
  {
    forall e ensures e in EntriesOf(items, k) <==> exists p :: ItemAt(items, p, k, e) {
      if e in EntriesOf(items, k) {
        SurvivingRowOfEntry(items, k, e);
      }
      if exists p :: ItemAt(items, p, k, e) {
        var p :| ItemAt(items, p, k, e);
        EntryOfSurvivingRow(items, p, k, e);
      }
    }
  }

  /** Keys of `items` without its last row keep their positions. */
  lemma KeysExtend(items: seq<Option<Item>>)
    requires items != []
    ensures var ks, ks' := Keys(items[..|items| - 1]), Keys(items);
      && |ks| <= |ks'| <= |ks| + 1
      && ks'[..|ks|] == ks
      && (|ks'| == |ks| + 1 ==> ks' == ks + [items[|items| - 1].value.hex])
      && (|ks'| == |ks| + 1 ==> items[|items| - 1].Some? && ks'[|ks|] !in ks)
  {
  }

  /**
   * Keys come out in first-seen order: when key `i` precedes key `j`, every
   * row carrying key `j` has a row carrying key `i` before it.
   */
  lemma {:induction false} KeysInFirstSeenOrder(items: seq<Option<Item>>, i: int, j: int, p: int)
    requires 0 <= i < j < |Keys(items)|
    requires HexAt(items, p, Keys(items)[j])
    ensures CarriedBefore(items, p, Keys(items)[i])
  {
    var n := |items| - 1;
    var prev := items[..n];
    var ks, ks' := Keys(prev), Keys(items);
    KeysExtend(items);
    assert i < |ks| && ks'[i] == ks[i];
    SurvivingRowOfKey(prev, ks[i]);
    var q0 :| HexAt(prev, q0, ks[i]);
    assert items[q0] == prev[q0] && HexAt(items, q0, ks'[i]);
    if j == |ks| {
      if p < n {
        assert items[p] == prev[p] && HexAt(prev, p, ks'[j]);
        KeyOfSurvivingRow(prev, p, ks'[j]);
        assert false;
      }
    } else {
      assert ks'[j] == ks[j];
      var p' := p;
      if p < n {
        assert items[p] == prev[p] && HexAt(prev, p, ks[j]);
      } else {
        SurvivingRowOfKey(prev, ks[j]);
        p' :| HexAt(prev, p', ks[j]);
      }
      KeysInFirstSeenOrder(prev, i, j, p');
      var q :| 0 <= q < p' && HexAt(prev, q, ks[i]);
      assert items[q] == prev[q] && HexAt(items, q, ks'[i]);
    }
  }

  /** Groups are listed in the order their key first occurs among the surviving items. */
  lemma GroupsInFirstSeenOrder(items: seq<Option<Item>>)
    ensures forall i, j, p | 0 <= i < j < |Grouped(items)| && HexAt(items, p, Grouped(items)[j].hex) ::
      CarriedBefore(items, p, Grouped(items)[i].hex)
  {
    var g, ks := Grouped(items), Keys(items);
    forall i, j, p | 0 <= i < j < |g| && HexAt(items, p, g[j].hex)
      ensures CarriedBefore(items, p, g[i].hex)
    {
      assert g[i].hex == ks[i] && g[j].hex == ks[j];
      KeysInFirstSeenOrder(items, i, j, p);
    }
  }

  /** The keys of the groups are pairwise distinct. */
  lemma GroupKeysDistinct(items: seq<Option<Item>>)
    ensures forall i, j | 0 <= i < j < |Grouped(items)| :: Grouped(items)[i].hex != Grouped(items)[j].hex
  {
    KeysDistinct(items);
  }

  /**
   * The group keys are exactly the normalised `hex` values of the surviving
   * items: each group's key is carried by some surviving row, and each
   * surviving row's key has a group.
   */
  lemma GroupKeysAreValidHexes(items: seq<Option<Item>>)
    ensures forall i | 0 <= i < |Grouped(items)| :: CarriedBefore(items, |items|, Grouped(items)[i].hex)
    ensures forall p, k | HexAt(items, p, k) :: exists i :: 0 <= i < |Grouped(items)| && Grouped(items)[i].hex == k
  {
    KeysAreValidHexes(items);
    var g, ks := Grouped(items), Keys(items);
    forall i | 0 <= i < |g| ensures CarriedBefore(items, |items|, g[i].hex) {
      assert g[i].hex == ks[i] && ks[i] in ks;
      var p :| HexAt(items, p, ks[i]);
    }
    forall p, k | HexAt(items, p, k) ensures exists i :: 0 <= i < |g| && g[i].hex == k {
      assert k in ks;
      var i :| 0 <= i < |ks| && ks[i] == k;
      assert g[i].hex == k;
    }
  }

  /**
   * Every group is well formed: its key is non-empty and lower-case, it has
   * at least one equivalent, and each equivalent comes from a surviving row
   * with that key, so its name and range are trimmed and non-empty.
   */
  lemma GroupsWellFormed(items: seq<Option<Item>>)
    requires AllClean(items)
    ensures forall i | 0 <= i < |Grouped(items)| ::
      && Grouped(items)[i].hex != []
      && NoUpper(Grouped(items)[i].hex)
      && Grouped(items)[i].equivalents != []
      && forall e | e in Grouped(items)[i].equivalents ::
           Trimmed(e.name) && Trimmed(e.range) && exists p :: ItemAt(items, p, Grouped(items)[i].hex, e)
  {
    var g, ks := Grouped(items), Keys(items);
    forall i | 0 <= i < |g|
      ensures g[i].hex != [] && NoUpper(g[i].hex) && g[i].equivalents != []
      ensures forall e | e in g[i].equivalents ::
        Trimmed(e.name) && Trimmed(e.range) && exists p :: ItemAt(items, p, g[i].hex, e)
    {
      var k := ks[i];
      EntriesOfEmpty(items, k);
      SurvivingRowOfKey(items, k);
      var p :| HexAt(items, p, k);
      assert Clean(items[p].value);
      forall e | e in g[i].equivalents
        ensures Trimmed(e.name) && Trimmed(e.range) && exists p :: ItemAt(items, p, k, e)
      {
        SurvivingRowOfEntry(items, k, e);
        var q :| ItemAt(items, q, k, e);
        assert Clean(items[q].value);
      }
    }
  }

  /** A row that does not survive normalisation changes nothing. */
  lemma DroppedRowChangesNothing(items: seq<Option<Item>>, r: Option<Item>)
    requires r.None?
    ensures Grouped(items + [r]) == Grouped(items)
  {
    var items' := items + [r];
    PrefixOfSnoc(items, r);
    assert Keys(items') == Keys(items);
    forall k ensures EntriesOf(items', k) == EntriesOf(items, k) { }
  }

  /** A surviving row with a key not seen before adds a group at the end holding its entry. */
  lemma NewKeyAddsGroup(items: seq<Option<Item>>, r: Option<Item>)
    requires r.Some? && r.value.hex !in Keys(items)
    ensures Grouped(items + [r]) == Grouped(items) + [Group(r.value.hex, [r.value.entry])]
  {
    var items' := items + [r];
    var it := r.value;
    PrefixOfSnoc(items, r);
    assert Keys(items') == Keys(items) + [it.hex];
    forall k | k != it.hex ensures EntriesOf(items', k) == EntriesOf(items, k) { }
    assert EntriesOf(items', it.hex) == EntriesOf(items, it.hex) + [it.entry];
    EntriesOfEmpty(items, it.hex);
    var g, g' := Grouped(items), Grouped(items');
    assert |g'| == |g| + 1;
    forall i | 0 <= i < |g| ensures g'[i] == g[i] {
      assert Keys(items')[i] == Keys(items)[i] != it.hex;
    }
    assert g'[|g|] == Group(it.hex, [it.entry]);
    assert g' == g + [Group(it.hex, [it.entry])];
  }

  /**
   * A surviving row with a known key appends its entry to the end of that
   * key's group and leaves every other group as it was.
   */
  lemma KnownKeyAppendsEntry(items: seq<Option<Item>>, r: Option<Item>, i: int)
    requires 0 <= i < |Grouped(items)|
    requires r.Some? && Grouped(items)[i].hex == r.value.hex
    ensures Grouped(items + [r]) ==
      Grouped(items)[i := Group(Grouped(items)[i].hex, Grouped(items)[i].equivalents + [r.value.entry])]
  {
    var items' := items + [r];
    var it := r.value;
    var ks := Keys(items);
    PrefixOfSnoc(items, r);
    assert ks[i] == it.hex;
    assert Keys(items') == ks;
    forall k | k != it.hex ensures EntriesOf(items', k) == EntriesOf(items, k) { }
    assert EntriesOf(items', it.hex) == EntriesOf(items, it.hex) + [it.entry];
    KeysDistinct(items);
  }

  /** Appending one entry to one group adds exactly that entry to the flattened result. */
  lemma {:induction false} FlattenAppendAt(groups: seq<Group>, i: int, e: Entry)
    requires 0 <= i < |groups|
    ensures multiset(Flatten(groups[i := Group(groups[i].hex, groups[i].equivalents + [e])]))
         == multiset(Flatten(groups)) + multiset{e}
  {
    var n := |groups| - 1;
    var g := Group(groups[i].hex, groups[i].equivalents + [e]);
    var groups' := groups[i := g];
    assert Flatten(groups') == Flatten(groups'[..n]) + groups'[n].equivalents;
    assert Flatten(groups) == Flatten(groups[..n]) + groups[n].equivalents;
    if i == n {
      assert groups'[..n] == groups[..n];
      assert groups'[n].equivalents == groups[n].equivalents + [e];
    } else {
      assert groups'[..n] == groups[..n][i := g];
      assert groups'[n] == groups[n];
      FlattenAppendAt(groups[..n], i, e);
    }
  }

  /**
   * Every surviving row contributes exactly one entry: the equivalents of
   * all groups together are the entries of the surviving items, none lost,
   * none merged, so there are as many of them as surviving items.
   */
  lemma {:induction false} EntriesAccountedFor(items: seq<Option<Item>>)
    ensures multiset(Flatten(Grouped(items))) == multiset(ValidEntries(items))
    ensures |Flatten(Grouped(items))| == |ValidEntries(items)|
  {
    if items != [] {
      var n := |items| - 1;
      var prev, r := items[..n], items[n];
      assert items == prev + [r];
      EntriesAccountedFor(prev);
      match r
      case None =>
        DroppedRowChangesNothing(prev, r);
      case Some(it) =>
        var g := Grouped(prev);
        if it.hex !in Keys(prev) {
          NewKeyAddsGroup(prev, r);
          assert (g + [Group(it.hex, [it.entry])])[..|g|] == g;
        } else {
          var i :| 0 <= i < |Keys(prev)| && Keys(prev)[i] == it.hex;
          KnownKeyAppendsEntry(prev, r, i);
          FlattenAppendAt(g, i, it.entry);
        }
    }
    assert |multiset(Flatten(Grouped(items)))| == |Flatten(Grouped(items))|;
  }
}
