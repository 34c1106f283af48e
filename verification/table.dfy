/**
 * The ranking table as the handler uses it: partition key `name`, sort key
 * `id`, one item per (name, id) holding the saved ranking.
 */
module RankingTable {
  import opened Results
  import opened Lexicographic
  import opened Ranking

  /** The `ranking` attribute: rows as `saveData` wrote them, or an empty string. */
  datatype Stored = Saved(rows: seq<Row>) | EmptyText

  /** The items of one board, by sort key. */
  type Partition = map<string, Stored>

  /** All boards' items, by partition key. */
  type Table = map<string, Partition>

  /** An item as `getRankingFromTable` returns it (`ITableRow`). */
  datatype Item = Item(id: string, name: string, ranking: Stored)

  function ItemsOf(table: Table, name: string): Partition {
    if name in table then table[name] else map[]
  }

  /**
   * `getRankingFromTable`: a descending query on the board's partition with
   * `Limit: 1`, so the item with the greatest id; `None` when the board has
   * no item.
   */
  function Latest(table: Table, name: string): (r: Option<Item>)
    ensures r.None? <==> ItemsOf(table, name) == map[]
    ensures r.Some? ==>
              && r.value.name == name
              && IsGreatest(r.value.id, ItemsOf(table, name).Keys)
              && ItemsOf(table, name)[r.value.id] == r.value.ranking
  {
    var items := ItemsOf(table, name);
    if items == map[] then None
    else
      var id := Greatest(items.Keys);
      Some(Item(id, name, items[id]))
  }

  /**
   * `saveData`: a put keyed by (name, id). It adds an item beside the board's
   * others, replacing only an item with the very same id.
   */
  function Put(table: Table, name: string, id: string, rows: seq<Row>): (t: Table)
    ensures id in ItemsOf(t, name) && ItemsOf(t, name)[id] == Saved(rows)
    ensures ItemsOf(t, name).Keys == ItemsOf(table, name).Keys + {id}
    ensures forall k :: k in ItemsOf(table, name) && k != id ==> ItemsOf(t, name)[k] == ItemsOf(table, name)[k]
    ensures forall n :: n != name ==> ItemsOf(t, n) == ItemsOf(table, n)
  {
    table[name := ItemsOf(table, name)[id := Saved(rows)]]
  }

  /**
   * After a put, the latest item of the board is the new one when its id sorts
   * at or after every stored id, and the previous latest item otherwise.
   */
  lemma LatestAfterPut(table: Table, name: string, id: string, rows: seq<Row>)
    ensures Latest(Put(table, name, id, rows), name).Some?
    ensures (forall k :: k in ItemsOf(table, name) ==> LexLe(k, id)) ==>
              Latest(Put(table, name, id, rows), name) == Some(Item(id, name, Saved(rows)))
    ensures Latest(table, name).Some? && !LexLe(Latest(table, name).value.id, id) ==>
              Latest(Put(table, name, id, rows), name) == Latest(table, name)
  {
    var t := Put(table, name, id, rows);
    var after := Latest(t, name).value;
    var keys := ItemsOf(t, name).Keys;
    if forall k :: k in ItemsOf(table, name) ==> LexLe(k, id) {
      forall k | k in keys
        ensures LexLe(k, id)
      {
        if k == id {
          LexReflexive(id);
        }
      }
      LexAntisymmetric(after.id, id);
    }
    if Latest(table, name).Some? && !LexLe(Latest(table, name).value.id, id) {
      var before := Latest(table, name).value;
      LexTotal(before.id, id);
      forall k | k in keys
        ensures LexLe(k, before.id)
      {
      }
      assert IsGreatest(before.id, keys);
      GreatestUnique(keys);
    }
  }
}
