/**
 * The ranking handler (`handler` of the get_ranking function): one delivery
 * of `{id, name}` checked against the table, the API response filtered, the
 * new ranking saved and the tweet text built.
 */
module Reconciler {
  import opened Results
  import opened Seqs
  import opened Lexicographic
  import opened Ranking
  import opened RankingTable

  /** The delivered payload (`IAthleticInfo`): batch id and board name. */
  datatype Delivery = Delivery(id: string, name: string)

  /** Whether the invocation returned or threw. */
  datatype Status = Completed | Threw

  /**
   * What one invocation did: the table afterwards, whether it called the
   * ranking API, whether it wrote an item, the tweet it posted, and how it
   * ended.
   */
  datatype Run = Run(table: Table, fetched: bool, saved: bool, tweet: Option<string>, status: Status)

  /** The run that does nothing at all. */
  function Skipped(table: Table): Run {
    Run(table, false, false, None, Completed)
  }

  /**
   * `handler(athleticInfo)`. `reply` is what the ranking API would answer
   * and is only consulted past the freshness check; `encode` stands for
   * `encodeURIComponent`.
   */
  function Handle(table: Table, info: Delivery, reply: ApiReply, encode: string -> string): (r: Run)
    // Freshness check: no item, or the latest item already has this id.
    ensures AlreadyCurrent(table, info) ==> r == Skipped(table)
    ensures !AlreadyCurrent(table, info) ==> r.fetched
    // Save: exactly a non-empty top 10, as a new item (name, id).
    ensures r.saved <==> r.fetched && FetchTopTen(reply).Some? && FetchTopTen(reply).value != []
    ensures r.saved ==> r.table == Put(table, info.name, info.id, FetchTopTen(reply).value)
    ensures !r.saved ==> r.table == table
    // Throws on an unusable reply, or after the save when the old text is empty.
    ensures r.status == Threw <==>
              r.fetched && (reply.Unusable? || (r.saved && Latest(table, info.name).value.ranking.EmptyText?))
    // Tweet: exactly when a saved top 10 has a row whose epoch and name are new.
    ensures r.tweet.Some? <==>
              && r.saved
              && Latest(table, info.name).value.ranking.Saved?
              && exists x :: x in FetchTopTen(reply).value && !SeenBefore(Latest(table, info.name).value.ranking.rows, x)
    ensures r.tweet.Some? ==>
              r.tweet == CheckRankingChange(info.name, Latest(table, info.name).value.ranking.rows, FetchTopTen(reply).value, encode)
    // Nothing else in the table changes.
    ensures forall n :: n != info.name ==> ItemsOf(r.table, n) == ItemsOf(table, n)
    ensures ItemsOf(table, info.name).Keys <= ItemsOf(r.table, info.name).Keys
    ensures forall k :: k in ItemsOf(table, info.name) && k != info.id ==>
              ItemsOf(r.table, info.name)[k] == ItemsOf(table, info.name)[k]
  {
    match Latest(table, info.name)
    case None => Skipped(table)
    case Some(latest) =>
      if latest.id == info.id then Skipped(table)
      else FetchAndCompare(table, info, latest.ranking, reply, encode)
  }

  /**
   * The handler past the freshness check: fetch, return on an empty top 10,
   * save, then compare with the `previous` ranking of the latest item.
   */
  function FetchAndCompare(table: Table, info: Delivery, previous: Stored, reply: ApiReply, encode: string -> string): (r: Run)
    ensures r.fetched
    ensures r.saved <==> FetchTopTen(reply).Some? && FetchTopTen(reply).value != []
    ensures r.saved ==> r.table == Put(table, info.name, info.id, FetchTopTen(reply).value)
    ensures !r.saved ==> r.table == table && r.tweet == None
    ensures r.status == Threw <==> reply.Unusable? || (r.saved && previous.EmptyText?)
    ensures r.tweet.Some? <==>
              r.saved && previous.Saved? && exists x :: x in FetchTopTen(reply).value && !SeenBefore(previous.rows, x)
    ensures r.tweet.Some? ==> r.tweet == CheckRankingChange(info.name, previous.rows, FetchTopTen(reply).value, encode)
  {
    match FetchTopTen(reply)
    case None => Run(table, true, false, None, Threw)
    case Some(top) =>
      if |top| == 0 then Run(table, true, false, None, Completed)
      else
        var after := Put(table, info.name, info.id, top);
        match previous
        case EmptyText =>
          // JSON.parse('{}') is not an array: `.map` throws after the save.
          Run(after, true, true, None, Threw)
        case Saved(oldRows) =>
          Run(after, true, true, CheckRankingChange(info.name, oldRows, top, encode), Completed)
  }

  /**
   * `checkRankingChange`: a tweet exactly when some new row's epoch and name
   * are not among the old rows', listing exactly those rows in new-list
   * order.
   */
  function CheckRankingChange(board: string, oldRows: seq<Row>, newRows: seq<Row>, encode: string -> string): (tweet: Option<string>)
    ensures tweet.Some? <==> exists x :: x in newRows && !SeenBefore(oldRows, x)
    ensures tweet.Some? ==>
              exists targets ::
                && tweet.value == Message(board, targets, encode)
                && IsSubseq(targets, newRows)
                && forall x :: multiset(targets)[x] == if SeenBefore(oldRows, x) then 0 else multiset(newRows)[x]
  {
    var targets := NewEntries(oldRows, newRows);
    NewEntriesCharacterized(oldRows, newRows);
    NewEntriesMultiplicity(oldRows, newRows);
    if |targets| == 0 then None else Some(Message(board, targets, encode))
  }

  /** The board's latest item already carries the delivered id, or there is none. */
  predicate AlreadyCurrent(table: Table, info: Delivery) {
    Latest(table, info.name).None? || Latest(table, info.name).value.id == info.id
  }

  /**
   * A board with no item is never written: the handler returns before the
   * save, so no sequence of deliveries creates its first item.
   */
  lemma UnknownBoardStaysUnknown(table: Table, info: Delivery, reply: ApiReply, encode: string -> string)
    requires ItemsOf(table, info.name) == map[]
    ensures ItemsOf(Handle(table, info, reply, encode).table, info.name) == map[]
  {}

  /**
   * Repeated delivery: when the delivered id sorts at or after every id the
   * board has and the API answers with a non-empty top 10, delivering the
   * same payload again is a no-op, whatever the API answers then.
   */
  lemma RedeliveryIsNoOp(table: Table, info: Delivery, reply: ApiReply, reply': ApiReply, encode: string -> string)
    requires forall k :: k in ItemsOf(table, info.name) ==> LexLe(k, info.id)
    requires FetchTopTen(reply).Some? && FetchTopTen(reply).value != []
    ensures var first := Handle(table, info, reply, encode);
            Handle(first.table, info, reply', encode) == Skipped(first.table)
  {
    var first := Handle(table, info, reply, encode);
    if first.saved {
      LatestAfterPut(table, info.name, info.id, FetchTopTen(reply).value);
    }
  }

  /**
   * Out-of-order delivery: an id that sorts before the board's latest id
   * passes the check, is saved beside it, and stays behind it, so delivering
   * it again calls the API again. The check compares with the latest id
   * only, not with every id seen.
   */
  lemma StaleRedeliveryRefetches(table: Table, info: Delivery, reply: ApiReply, reply': ApiReply, encode: string -> string)
    requires Latest(table, info.name).Some?
    requires !LexLe(Latest(table, info.name).value.id, info.id)
    requires FetchTopTen(reply).Some? && FetchTopTen(reply).value != []
    ensures Handle(table, info, reply, encode).saved
    ensures Handle(Handle(table, info, reply, encode).table, info, reply', encode).fetched
  {
    var latest := Latest(table, info.name).value;
    if latest.id == info.id {
      LexReflexive(info.id);
    }
    LatestAfterPut(table, info.name, info.id, FetchTopTen(reply).value);
  }
}
