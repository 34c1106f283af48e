/**
 * Ranking rows as the ranking handler sees them: the top-10 filter applied to
 * the API response, the `epoch-name` comparison key, the diff against the
 * previously stored rows, and the text of the notification tweet.
 */
module Ranking {
  import opened Results
  import opened Decimal
  import opened Text
  import opened Seqs
  import opened Clock

  /** One row of an athletic's time-attack ranking (`IRankingRow`). */
  datatype Row = Row(name: string, rank: int, time: int, epoch: int)

  /** The decoded body of the ranking API response. */
  datatype ApiReply =
    | Rows(rows: seq<Row>)  // a JSON array of rows
    | Falsy                 // `null` or another falsy value: `rankingRes || []` is empty
    | Unusable              // request failure, invalid JSON or a non-array: the call throws

  /** Ranks kept after the fetch. */
  const TopRank: int := 10

  predicate InTopTen(r: Row) {
    r.rank <= TopRank
  }

  /**
   * `getRankingFromAPI`: the response's rows with rank at most 10, in the
   * response's order; `None` when the call throws.
   */
  function FetchTopTen(reply: ApiReply): (r: Option<seq<Row>>)
    ensures r.None? <==> reply.Unusable?
    ensures reply.Falsy? ==> r == Some([])
    ensures reply.Rows? ==>
              && r.Some?
              && (forall x :: x in r.value <==> x in reply.rows && x.rank <= TopRank)
              && (forall x :: multiset(r.value)[x] == if x.rank <= TopRank then multiset(reply.rows)[x] else 0)
              && IsSubseq(r.value, reply.rows)
  {
    match reply
    case Rows(rows) => Some(Filter(rows, InTopTen))
    case Falsy => Some([])
    case Unusable => None
  }

  /** `rankingRowToEpochName`: the template literal `${epoch}-${name}`. */
  function EpochName(r: Row): string {
    IntToString(r.epoch) + "-" + r.name
  }

  /**
   * The key tells rows apart exactly by epoch and name: the rendered epoch
   * has no '-' after its first character, so the first '-' after position 0
   * ends it, whatever the name contains.
   */
  lemma EpochNameInjective(a: Row, b: Row)
    ensures EpochName(a) == EpochName(b) <==> a.epoch == b.epoch && a.name == b.name
  {
    var sa, sb := IntToString(a.epoch), IntToString(b.epoch);
    var ka, kb := EpochName(a), EpochName(b);
    DashEndsNumeral(sa, a.name);
    DashEndsNumeral(sb, b.name);
    if ka == kb {
      if |sa| < |sb| {
        assert false;
      } else if |sb| < |sa| {
        assert false;
      }
      assert sa == ka[..|sa|] && sb == kb[..|sb|];
      assert a.name == ka[|sa| + 1..] && b.name == kb[|sb| + 1..];
      IntToStringInjective(a.epoch, b.epoch);
    }
  }

  /** In `numeral-name` the first '-' after position 0 is the one after the numeral. */
  lemma DashEndsNumeral(numeral: string, name: string)
    requires 1 <= |numeral|
    requires forall k :: 1 <= k < |numeral| ==> IsDigit(numeral[k])
    ensures (numeral + "-" + name)[|numeral|] == '-'
    ensures forall k :: 1 <= k < |numeral| ==> (numeral + "-" + name)[k] != '-'
  {
    var key := numeral + "-" + name;
    forall k | 1 <= k < |numeral|
      ensures key[k] != '-'
    {
      assert key[k] == numeral[k];
    }
  }

  /** `oldRanking.map(rankingRowToEpochName)`. */
  function EpochNames(rows: seq<Row>): (keys: seq<string>)
    ensures |keys| == |rows|
    ensures forall i :: 0 <= i < |rows| ==> keys[i] == EpochName(rows[i])
  {
    seq(|rows|, i requires 0 <= i < |rows| => EpochName(rows[i]))
  }

  /** Some old row has the same epoch and name as `r`. */
  predicate SeenBefore(oldRows: seq<Row>, r: Row) {
    exists o :: o in oldRows && o.epoch == r.epoch && o.name == r.name
  }

  /**
   * The tweet targets: the new rows whose `epoch-name` key is not among the
   * old rows' keys, in new-list order.
   */
  function NewEntries(oldRows: seq<Row>, newRows: seq<Row>): (targets: seq<Row>)
    ensures IsSubseq(targets, newRows)
    ensures forall x :: multiset(targets)[x] == if EpochName(x) in EpochNames(oldRows) then 0 else multiset(newRows)[x]
  {
    var oldKeys := EpochNames(oldRows);
    Filter(newRows, r => EpochName(r) !in oldKeys)
  }

  /**
   * A row is reported exactly when it is in the new list and no old row has
   * its epoch and name; rank and time play no part.
   */
  lemma NewEntriesExactly(oldRows: seq<Row>, newRows: seq<Row>, x: Row)
    ensures x in NewEntries(oldRows, newRows) <==> x in newRows && !SeenBefore(oldRows, x)
  {
    assert x in NewEntries(oldRows, newRows) <==> multiset(NewEntries(oldRows, newRows))[x] > 0;
    KeyKnownIffSeen(oldRows, x);
  }

  /** An old key matches a row's key exactly when an old row has its epoch and name. */
  lemma KeyKnownIffSeen(oldRows: seq<Row>, x: Row)
    ensures EpochName(x) in EpochNames(oldRows) <==> SeenBefore(oldRows, x)
  {
    var oldKeys := EpochNames(oldRows);
    if EpochName(x) in oldKeys {
      var i :| 0 <= i < |oldKeys| && oldKeys[i] == EpochName(x);
      EpochNameInjective(oldRows[i], x);
      assert oldRows[i] in oldRows;
    }
    if SeenBefore(oldRows, x) {
      var o :| o in oldRows && o.epoch == x.epoch && o.name == x.name;
      var i :| 0 <= i < |oldRows| && oldRows[i] == o;
      assert oldKeys[i] == EpochName(x);
    }
  }

  /** `NewEntriesExactly` for all rows at once, and its consequence for emptiness. */
  lemma NewEntriesCharacterized(oldRows: seq<Row>, newRows: seq<Row>)
    ensures forall x :: x in NewEntries(oldRows, newRows) <==> x in newRows && !SeenBefore(oldRows, x)
    ensures |NewEntries(oldRows, newRows)| > 0 <==> exists x :: x in newRows && !SeenBefore(oldRows, x)
  {
    var targets := NewEntries(oldRows, newRows);
    forall x
      ensures x in targets <==> x in newRows && !SeenBefore(oldRows, x)
    {
      NewEntriesExactly(oldRows, newRows, x);
    }
    if |targets| > 0 {
      assert targets[0] in targets;
    }
  }

  /** Each unseen new row is reported as often as it occurs; seen rows never are. */
  lemma NewEntriesMultiplicity(oldRows: seq<Row>, newRows: seq<Row>)
    ensures forall x :: multiset(NewEntries(oldRows, newRows))[x] == if SeenBefore(oldRows, x) then 0 else multiset(newRows)[x]
  {
    forall x
      ensures multiset(NewEntries(oldRows, newRows))[x] == if SeenBefore(oldRows, x) then 0 else multiset(newRows)[x]
    {
      KeyKnownIffSeen(oldRows, x);
    }
  }



  /** Rows that left the list are never reported: every target is a new row. */
  lemma DeparturesNotReported(oldRows: seq<Row>, newRows: seq<Row>, x: Row)
    requires x in oldRows && x !in newRows
    ensures x !in NewEntries(oldRows, newRows)
  {
    NewEntriesExactly(oldRows, newRows, x);
  }

  /**
   * The worked case: old rows A@100 and B@101, new rows A@100 (rank 1) and
   * C@102 (rank 2); only C is new, and B's departure is not reported.
   */
  lemma NewEntriesExample(a: Row, b: Row, a': Row, c: Row)
    requires a.name == "A" && a.epoch == 100 && b.name == "B" && b.epoch == 101
    requires a'.name == "A" && a'.epoch == 100 && a'.rank == 1
    requires c.name == "C" && c.epoch == 102 && c.rank == 2
    ensures NewEntries([a, b], [a', c]) == [c]
  {
    var oldKeys := EpochNames([a, b]);
    EpochNameInjective(a', a);
    EpochNameInjective(c, a);
    EpochNameInjective(c, b);
    assert oldKeys[0] == EpochName(a) == EpochName(a');
    assert EpochName(c) !in oldKeys;
    var p := (r: Row) => EpochName(r) !in oldKeys;
    assert Filter([a', c], p) == Filter([c], p);
  }

  // The notification text.

  const Header: string := "【TAランキング変動通知】"

  const RankingUrl: string := "https://www.mchel.net/info#athletic:ranking:"

  function Announcement(board: string): string {
    "「" + board + "」のTAランキング上位10記録に変動がありました。"
  }

  /** `・${name} さんが ${rank}位 にランクイン (${msToTime(time)})` */
  function Bullet(t: Row): string {
    "・" + t.name + " さんが " + IntToString(t.rank) + "位 にランクイン (" + MsToTime(t.time) + ")"
  }

  /** `tweetTarget.map(...)`: one bullet per target, in order. */
  function Bullets(targets: seq<Row>): (bullets: seq<string>)
    ensures |bullets| == |targets|
    ensures forall i :: 0 <= i < |targets| ==> bullets[i] == Bullet(targets[i])
  {
    if |targets| == 0 then [] else [Bullet(targets[0])] + Bullets(targets[1..])
  }

  /**
   * The lines joined into the tweet: header, blank, the board sentence, one
   * bullet per target in order, blank, the link with the encoded board name.
   * `encode` stands for `encodeURIComponent`.
   */
  function MessageLines(board: string, targets: seq<Row>, encode: string -> string): (lines: seq<string>)
    ensures |lines| == 5 + |targets|
    ensures lines[0] == Header && lines[1] == "" && lines[2] == Announcement(board)
    ensures forall i :: 0 <= i < |targets| ==> lines[3 + i] == Bullet(targets[i])
    ensures lines[3 + |targets|] == "" && lines[4 + |targets|] == RankingUrl + encode(board)
  {
    Frame(Announcement(board), Bullets(targets), RankingUrl + encode(board))
  }

  /** The fixed lines around the bullets. */
  function Frame(sentence: string, bullets: seq<string>, link: string): (lines: seq<string>)
    ensures |lines| == 5 + |bullets|
    ensures lines[0] == Header && lines[1] == "" && lines[2] == sentence
    ensures forall i :: 0 <= i < |bullets| ==> lines[3 + i] == bullets[i]
    ensures lines[3 + |bullets|] == "" && lines[4 + |bullets|] == link
  {
    [Header, "", sentence] + bullets + ["", link]
  }

  /** `[...].join('\n')`: the tweet text. */
  function Message(board: string, targets: seq<Row>, encode: string -> string): string {
    Join(MessageLines(board, targets, encode), '\n')
  }

  lemma BulletHasNoNewline(t: Row)
    requires '\n' !in t.name
    ensures '\n' !in Bullet(t)
  {
    MsToTimeCharacters(t.time);
    var rank, time := IntToString(t.rank), MsToTime(t.time);
    assert '\n' !in rank by {
      forall k | 0 <= k < |rank| ensures rank[k] != '\n' {
        assert IsDigit(rank[k]) || rank[k] == '-';
      }
    }
    assert '\n' !in time by {
      forall k | 0 <= k < |time| ensures time[k] != '\n' {
        assert IsDigit(time[k]) || time[k] in "-:.";
      }
    }
  }

  /**
   * Unless the board name, a target's name or the encoded link carries a
   * line break, the tweet splits back into exactly its lines: five plus one
   * per target.
   */
  lemma MessageSplitsIntoLines(board: string, targets: seq<Row>, encode: string -> string)
    requires '\n' !in board && '\n' !in encode(board)
    requires forall t :: t in targets ==> '\n' !in t.name
    ensures Split(Message(board, targets, encode), '\n') == MessageLines(board, targets, encode)
    ensures |Split(Message(board, targets, encode), '\n')| == 5 + |targets|
  {
    BulletsHaveNoNewline(targets);
    AnnouncementHasNoNewline(board);
    LinkHasNoNewline(encode(board));
    FrameSplits(Announcement(board), Bullets(targets), RankingUrl + encode(board));
  }

  lemma BulletsHaveNoNewline(targets: seq<Row>)
    requires forall t :: t in targets ==> '\n' !in t.name
    ensures forall i :: 0 <= i < |targets| ==> '\n' !in Bullets(targets)[i]
  {
    forall i | 0 <= i < |targets|
      ensures '\n' !in Bullets(targets)[i]
    {
      BulletHasNoNewline(targets[i]);
    }
  }

  lemma AnnouncementHasNoNewline(board: string)
    requires '\n' !in board
    ensures '\n' !in Announcement(board)
  {}

  lemma LinkHasNoNewline(encoded: string)
    requires '\n' !in encoded
    ensures '\n' !in RankingUrl + encoded
  {
    assert '\n' !in RankingUrl;
  }

  /** The fixed lines carry no line break, so a frame of break-free lines splits back into itself. */
  lemma FrameSplits(sentence: string, bullets: seq<string>, link: string)
    requires '\n' !in sentence && '\n' !in link
    requires forall i :: 0 <= i < |bullets| ==> '\n' !in bullets[i]
    ensures Split(Join(Frame(sentence, bullets, link), '\n'), '\n') == Frame(sentence, bullets, link)
  {
    var lines := Frame(sentence, bullets, link);
    forall i | 0 <= i < |lines|
      ensures '\n' !in lines[i]
    {
      if 3 <= i < 3 + |bullets| {
        assert lines[3 + (i - 3)] == bullets[i - 3];
      } else if i == 0 {
        assert '\n' !in Header;
      }
    }
    SplitJoin(lines, '\n');
  }
}
