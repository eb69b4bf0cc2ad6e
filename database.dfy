/**
 * The poll store of polls/database.py: three tables (polls, choices,
 * votes) held as sequences of rows inside a PollDatabase object, each
 * autoincremented id given by a counter field. Every SQL statement is a
 * scan over its table in row order; an insert appends a row and bumps the
 * counter.
 */
module Database {
  import opened Wrappers

  datatype PollRow = PollRow(id: int, code: string, creator: string, roomId: string, question: string, stillOpen: bool)
  datatype ChoiceRow = ChoiceRow(id: int, pollId: int, choiceNumber: int, content: string)
  datatype VoteRow = VoteRow(id: int, pollId: int, choiceId: int, voter: string)

  /** What get_poll hands back: the empty Poll(None, None, None, None), or the row's fields. */
  datatype Poll = NoPoll | Poll(id: int, question: string, creator: string, stillOpen: bool) {
    predicate Exists() { Poll? }
  }

  // ---------------------------------------------------------------- codes

  const CodeLength: nat := 6

  /** string.ascii_uppercase + string.digits, the 36 characters a code is drawn from. */
  function Alphabet(): (a: string)
    ensures a == "ABCDEFGHIJKLMNOPQRSTUVWXYZ0123456789"
  {
    seq(26, i requires 0 <= i < 26 => ('A' as int + i) as char) + seq(10, i requires 0 <= i < 10 => ('0' as int + i) as char)
  }

  predicate IsCodeChar(c: char) { 'A' <= c <= 'Z' || '0' <= c <= '9' }

  predicate IsCode(s: string) {
    |s| == CodeLength && forall k :: 0 <= k < |s| ==> IsCodeChar(s[k])
  }

  /**
   * _generate_random_string: six picks from the alphabet. draw(i) is the
   * index the random source yields for the i-th pick.
   */
  function GenerateRandomString(draw: nat -> nat): (code: string)
    ensures IsCode(code)
  {
    seq(CodeLength, i requires 0 <= i => Alphabet()[draw(i) % |Alphabet()|])
  }

  /** The position of a code character in the alphabet. */
  function AlphabetIndex(c: char): (k: nat)
    requires IsCodeChar(c)
    ensures k < |Alphabet()| && Alphabet()[k] == c
  {
    if 'A' <= c <= 'Z' then c as int - 'A' as int else 26 + (c as int - '0' as int)
  }

  /** Every well-formed code is a possible outcome of the generator. */
  lemma EveryCodePossible(code: string)
    requires IsCode(code)
    ensures exists draw: nat -> nat :: GenerateRandomString(draw) == code
  {
    var draw := (i: nat) => if i < |code| then AlphabetIndex(code[i]) else 0;
    var g := GenerateRandomString(draw);
    forall k | 0 <= k < |code|
      ensures g[k] == code[k]
    {
      assert draw(k) % |Alphabet()| == AlphabetIndex(code[k]);
    }
    assert g == code;
  }

  // ------------------------------------------------------ table queries

  /** select * from choices where poll_id == pollId, in row order. */
  function ChoicesOf(rows: seq<ChoiceRow>, pollId: int): (r: seq<ChoiceRow>)
    ensures forall c :: c in r <==> c in rows && c.pollId == pollId
  {
    if rows == [] then []
    else
      var last := rows[|rows| - 1];
      var rest := ChoicesOf(rows[..|rows| - 1], pollId);
      assert forall c :: c in rows <==> c in rows[..|rows| - 1] || c == last;
      if last.pollId == pollId then rest + [last] else rest
  }

  /** select * from votes where poll_id == pollId, in row order. */
  function VotesOf(rows: seq<VoteRow>, pollId: int): (r: seq<VoteRow>)
    ensures forall v :: v in r <==> v in rows && v.pollId == pollId
  {
    if rows == [] then []
    else
      var last := rows[|rows| - 1];
      var rest := VotesOf(rows[..|rows| - 1], pollId);
      assert forall v :: v in rows <==> v in rows[..|rows| - 1] || v == last;
      if last.pollId == pollId then rest + [last] else rest
  }

  predicate IsBallot(v: VoteRow, pollId: int, voter: string) {
    v.pollId == pollId && v.voter == voter
  }

  /** The vote rows of one voter in one poll. */
  function Ballots(rows: seq<VoteRow>, pollId: int, voter: string): (r: seq<VoteRow>)
    ensures forall v :: v in r <==> v in rows && IsBallot(v, pollId, voter)
  {
    if rows == [] then []
    else
      var last := rows[|rows| - 1];
      var rest := Ballots(rows[..|rows| - 1], pollId, voter);
      assert forall v :: v in rows <==> v in rows[..|rows| - 1] || v == last;
      if IsBallot(last, pollId, voter) then rest + [last] else rest
  }

  /** What delete from votes where poll_id == pollId and voter == voter leaves. */
  function Retained(rows: seq<VoteRow>, pollId: int, voter: string): (r: seq<VoteRow>)
    ensures forall v :: v in r <==> v in rows && !IsBallot(v, pollId, voter)
  {
    if rows == [] then []
    else
      var last := rows[|rows| - 1];
      var rest := Retained(rows[..|rows| - 1], pollId, voter);
      assert forall v :: v in rows <==> v in rows[..|rows| - 1] || v == last;
      if IsBallot(last, pollId, voter) then rest else rest + [last]
  }

  /** The row ids of a list of choices. */
  function ChoiceIds(rows: seq<ChoiceRow>): (ids: set<int>)
    ensures forall c :: c in rows ==> c.id in ids
  {
    if rows == [] then {} else ChoiceIds(rows[..|rows| - 1]) + {rows[|rows| - 1].id}
  }

  /** The dict get_poll_choices_ids fills: choice_number to row id, a later row overriding an earlier one. */
  function ChoiceIdMap(rows: seq<ChoiceRow>): (m: map<int, int>)
    ensures forall k :: k in m ==> m[k] in ChoiceIds(rows)
    ensures forall c :: c in rows ==> c.choiceNumber in m
  {
    if rows == [] then map[]
    else
      var last := rows[|rows| - 1];
      var rest := ChoiceIdMap(rows[..|rows| - 1]);
      assert forall c :: c in rows <==> c in rows[..|rows| - 1] || c == last;
      rest[last.choiceNumber := last.id]
  }

  /** Choices numbered 1, 2, ... in row order. */
  predicate Numbered(rows: seq<ChoiceRow>) {
    forall k :: 0 <= k < |rows| ==> rows[k].choiceNumber == k + 1
  }

  predicate IdsAscending(rows: seq<ChoiceRow>) {
    forall i, j :: 0 <= i < j < |rows| ==> rows[i].id < rows[j].id
  }

  /** For choices numbered 1..n the lookup dict has exactly the keys 1..n, key k giving the k-th row's id. */
  lemma {:induction false} NumberedIdMap(rows: seq<ChoiceRow>)
    requires Numbered(rows)
    ensures forall k :: k in ChoiceIdMap(rows) <==> 1 <= k <= |rows|
    ensures forall i :: 0 <= i < |rows| ==> ChoiceIdMap(rows)[i + 1] == rows[i].id
  {
    if rows != [] {
      var init := rows[..|rows| - 1];
      var last := rows[|rows| - 1];
      assert Numbered(init) by {
        forall k | 0 <= k < |init| ensures init[k].choiceNumber == k + 1 {
          assert init[k] == rows[k];
        }
      }
      NumberedIdMap(init);
      var before := ChoiceIdMap(init);
      var m := ChoiceIdMap(rows);
      assert m == before[|rows| := last.id];
      forall k ensures k in m <==> 1 <= k <= |rows| {
        assert k in m <==> k in before || k == |rows|;
      }
      forall i | 0 <= i < |rows| ensures m[i + 1] == rows[i].id {
        if i < |init| {
          assert m[i + 1] == before[i + 1] == init[i].id;
          assert init[i] == rows[i];
        }
      }
    }
  }

  /** A filtered list of choices keeps the table's ascending ids. */
  lemma {:induction false} ChoicesOfAscending(rows: seq<ChoiceRow>, pollId: int)
    requires IdsAscending(rows)
    ensures IdsAscending(ChoicesOf(rows, pollId))
  {
    if rows != [] {
      var init := rows[..|rows| - 1];
      var last := rows[|rows| - 1];
      assert IdsAscending(init);
      ChoicesOfAscending(init, pollId);
      var rest := ChoicesOf(init, pollId);
      forall c | c in rest ensures c.id < last.id {
        var i :| 0 <= i < |init| && init[i] == c;
      }
    }
  }

  /** The rows create_poll adds for its options: ids from firstId, numbers from 1, input order. */
  function NewChoices(firstId: int, pollId: int, options: seq<string>): seq<ChoiceRow>
  {
    seq(|options|, i requires 0 <= i < |options| => ChoiceRow(firstId + i, pollId, i + 1, options[i]))
  }

  /** The choices of a poll created with n options are numbered 1..n, and the lookup dict maps k to the k-th new row id. */
  lemma NewChoicesIdMap(firstId: int, pollId: int, options: seq<string>)
    ensures Numbered(NewChoices(firstId, pollId, options))
    ensures forall k :: k in ChoiceIdMap(NewChoices(firstId, pollId, options)) <==> 1 <= k <= |options|
    ensures forall k :: 1 <= k <= |options| ==> ChoiceIdMap(NewChoices(firstId, pollId, options))[k] == firstId + k - 1
  {
    var rows := NewChoices(firstId, pollId, options);
    NumberedIdMap(rows);
    forall k | 1 <= k <= |options| ensures ChoiceIdMap(rows)[k] == firstId + k - 1 {
      assert ChoiceIdMap(rows)[(k - 1) + 1] == rows[k - 1].id;
    }
  }

  predicate Matches(row: PollRow, roomId: string, code: string) {
    row.roomId == roomId && row.code == code
  }

  function AsPoll(row: PollRow): Poll {
    Poll(row.id, row.question, row.creator, row.stillOpen)
  }

  /**
   * A possible answer of get_poll: the fields of some row whose room and
   * code both match, or the empty Poll when no row matches. Which matching
   * row fetchone() yields is up to the database.
   */
  ghost predicate IsLookup(polls: seq<PollRow>, roomId: string, code: string, poll: Poll)
    ensures IsLookup(polls, roomId, code, poll) ==>
      (poll.Exists() <==> exists i :: 0 <= i < |polls| && Matches(polls[i], roomId, code))
    ensures IsLookup(polls, roomId, code, poll) && poll.Exists() ==>
      exists i :: 0 <= i < |polls| && polls[i].id == poll.id && polls[i].roomId == roomId && polls[i].code == code
  {
    if exists i :: 0 <= i < |polls| && Matches(polls[i], roomId, code)
    then exists i :: 0 <= i < |polls| && Matches(polls[i], roomId, code) && poll == AsPoll(polls[i])
    else poll == NoPoll
  }

  /** update polls set still_open = False where id == pollId */
  function ClosedIn(polls: seq<PollRow>, pollId: int): (r: seq<PollRow>)
    ensures |r| == |polls|
    ensures forall i :: 0 <= i < |r| ==> r[i].(stillOpen := polls[i].stillOpen) == polls[i]
    ensures forall i :: 0 <= i < |r| ==> r[i].stillOpen == (polls[i].stillOpen && polls[i].id != pollId)
  {
    seq(|polls|, i requires 0 <= i < |polls| => if polls[i].id == pollId then polls[i].(stillOpen := false) else polls[i])
  }

  /** Closing changes only still_open of the rows with that id, never reopens one, and a second close changes nothing. */
  lemma CloseProperties(polls: seq<PollRow>, pollId: int)
    ensures |ClosedIn(polls, pollId)| == |polls|
    ensures forall i :: 0 <= i < |polls| && polls[i].id == pollId ==> !ClosedIn(polls, pollId)[i].stillOpen
    ensures forall i :: 0 <= i < |polls| ==> ClosedIn(polls, pollId)[i].(stillOpen := polls[i].stillOpen) == polls[i]
    ensures forall i :: 0 <= i < |polls| && ClosedIn(polls, pollId)[i].stillOpen ==> polls[i].stillOpen
    ensures forall i :: 0 <= i < |polls| && polls[i].id != pollId ==> ClosedIn(polls, pollId)[i] == polls[i]
    ensures ClosedIn(ClosedIn(polls, pollId), pollId) == ClosedIn(polls, pollId)
  {
  }

  /** After set_vote the voter has exactly the new vote in that poll, and no other voter's or poll's votes moved. */
  lemma {:induction false} SetVoteOutcome(rows: seq<VoteRow>, pollId: int, voter: string, added: VoteRow)
    requires IsBallot(added, pollId, voter)
    ensures Ballots(Retained(rows, pollId, voter) + [added], pollId, voter) == [added]
    ensures forall q, w :: !(q == pollId && w == voter) ==>
              Ballots(Retained(rows, pollId, voter) + [added], q, w) == Ballots(rows, q, w)
  {
    var kept := Retained(rows, pollId, voter);
    assert (kept + [added])[..|kept|] == kept;
    NoBallotsLeft(rows, pollId, voter);
    forall q, w | !(q == pollId && w == voter)
      ensures Ballots(kept + [added], q, w) == Ballots(rows, q, w)
    {
      RetainedKeepsOthers(rows, pollId, voter, q, w);
    }
  }

  lemma {:induction false} NoBallotsLeft(rows: seq<VoteRow>, pollId: int, voter: string)
    ensures Ballots(Retained(rows, pollId, voter), pollId, voter) == []
  {
    if rows != [] {
      var init := rows[..|rows| - 1];
      var last := rows[|rows| - 1];
      NoBallotsLeft(init, pollId, voter);
      var kept := Retained(init, pollId, voter);
      if !IsBallot(last, pollId, voter) {
        assert (kept + [last])[..|kept|] == kept;
      }
    }
  }

  lemma {:induction false} RetainedKeepsOthers(rows: seq<VoteRow>, pollId: int, voter: string, q: int, w: string)
    requires !(q == pollId && w == voter)
    ensures Ballots(Retained(rows, pollId, voter), q, w) == Ballots(rows, q, w)
  {
    if rows != [] {
      var init := rows[..|rows| - 1];
      var last := rows[|rows| - 1];
      RetainedKeepsOthers(init, pollId, voter, q, w);
      var kept := Retained(init, pollId, voter);
      if !IsBallot(last, pollId, voter) {
        assert (kept + [last])[..|kept|] == kept;
      }
    }
  }

  /** At most one vote row per (poll, voter). */
  predicate OneVoteEach(rows: seq<VoteRow>) {
    forall i, j :: 0 <= i < j < |rows| ==> !IsBallot(rows[j], rows[i].pollId, rows[i].voter)
  }

  /** set_vote keeps at most one vote per (poll, voter). */
  lemma SetVoteKeepsOneVoteEach(rows: seq<VoteRow>, pollId: int, voter: string, added: VoteRow)
    requires OneVoteEach(rows)
    requires IsBallot(added, pollId, voter)
    ensures OneVoteEach(Retained(rows, pollId, voter) + [added])
  {
    var kept := Retained(rows, pollId, voter);
    RetainedOneVoteEach(rows, pollId, voter);
    var r := kept + [added];
    forall i, j | 0 <= i < j < |r| ensures !IsBallot(r[j], r[i].pollId, r[i].voter) {
      if j == |kept| {
        assert r[i] in kept;
      } else {
        assert r[i] == kept[i] && r[j] == kept[j];
      }
    }
  }

  lemma {:induction false} RetainedOneVoteEach(rows: seq<VoteRow>, pollId: int, voter: string)
    requires OneVoteEach(rows)
    ensures OneVoteEach(Retained(rows, pollId, voter))
  {
    if rows != [] {
      var init := rows[..|rows| - 1];
      var last := rows[|rows| - 1];
      assert OneVoteEach(init);
      RetainedOneVoteEach(init, pollId, voter);
      var kept := Retained(init, pollId, voter);
      if !IsBallot(last, pollId, voter) {
        var r := kept + [last];
        forall i, j | 0 <= i < j < |r| ensures !IsBallot(r[j], r[i].pollId, r[i].voter) {
          if j == |kept| {
            assert r[i] in kept;
            var k :| 0 <= k < |init| && init[k] == r[i];
          } else {
            assert r[i] == kept[i] && r[j] == kept[j];
          }
        }
      }
    }
  }

  lemma {:induction false} NoChoicesOf(rows: seq<ChoiceRow>, pollId: int)
    requires forall c :: c in rows ==> c.pollId != pollId
    ensures ChoicesOf(rows, pollId) == []
  {
    if rows != [] {
      NoChoicesOf(rows[..|rows| - 1], pollId);
    }
  }

  lemma {:induction false} ChoicesOfConcat(a: seq<ChoiceRow>, b: seq<ChoiceRow>, pollId: int)
    ensures ChoicesOf(a + b, pollId) == ChoicesOf(a, pollId) + ChoicesOf(b, pollId)
  {
    if b == [] {
      assert a + b == a;
    } else {
      var init := b[..|b| - 1];
      ChoicesOfConcat(a, init, pollId);
      assert (a + b)[..|a + b| - 1] == a + init;
    }
  }

  lemma {:induction false} ChoicesOfNew(firstId: int, pollId: int, options: seq<string>, p: int)
    ensures ChoicesOf(NewChoices(firstId, pollId, options), p) == if p == pollId then NewChoices(firstId, pollId, options) else []
  {
    var rows := NewChoices(firstId, pollId, options);
    if options != [] {
      var init := options[..|options| - 1];
      var front := NewChoices(firstId, pollId, init);
      ChoicesOfNew(firstId, pollId, init, p);
      assert rows[..|rows| - 1] == front;
      assert rows[|rows| - 1].pollId == pollId;
      if p == pollId {
        assert rows == front + [rows[|rows| - 1]];
      }
    }
  }

  /**
   * The choice rows create_poll appends, with ids from the counter and a
   * poll id no earlier row has, keep the choice part of the store invariant.
   */
  lemma InsertedChoices(rows: seq<ChoiceRow>, firstId: int, pollId: int, options: seq<string>)
    requires forall c :: c in rows ==> c.id < firstId && c.pollId < pollId
    requires IdsAscending(rows)
    requires forall p :: Numbered(ChoicesOf(rows, p))
    ensures IdsAscending(rows + NewChoices(firstId, pollId, options))
    ensures forall p :: Numbered(ChoicesOf(rows + NewChoices(firstId, pollId, options), p))
    ensures ChoicesOf(rows + NewChoices(firstId, pollId, options), pollId) == NewChoices(firstId, pollId, options)
    ensures forall p :: p != pollId ==> ChoicesOf(rows + NewChoices(firstId, pollId, options), p) == ChoicesOf(rows, p)
  {
    var added := NewChoices(firstId, pollId, options);
    var all := rows + added;
    forall i, j | 0 <= i < j < |all| ensures all[i].id < all[j].id {
      if j < |rows| {
      } else if i < |rows| {
        assert all[i] in rows;
      }
    }
    NoChoicesOf(rows, pollId);
    forall p ensures ChoicesOf(all, p) == if p == pollId then added else ChoicesOf(rows, p) {
      ChoicesOfConcat(rows, added, p);
      ChoicesOfNew(firstId, pollId, options, p);
    }
  }

  // ------------------------------------------------------------ the store

  class PollDatabase {
    var polls: seq<PollRow>
    var choices: seq<ChoiceRow>
    var votes: seq<VoteRow>
    /** The next value of each table's autoincremented id. */
    var nextPollId: int
    var nextChoiceId: int
    var nextVoteId: int

    /**
     * What the operations below keep: ids below their counters, poll and
     * choice ids ascending in row order, choices only of polls already
     * inserted and numbered 1..n per poll, at most one vote per (poll, voter).
     */
    ghost predicate Valid()
      reads this
    {
      && 1 <= nextPollId && 1 <= nextChoiceId && 1 <= nextVoteId
      && (forall i :: 0 <= i < |polls| ==> 1 <= polls[i].id < nextPollId)
      && (forall i, j :: 0 <= i < j < |polls| ==> polls[i].id < polls[j].id)
      && (forall c :: c in choices ==> 1 <= c.id < nextChoiceId && c.pollId < nextPollId)
      && IdsAscending(choices)
      && (forall p :: Numbered(ChoicesOf(choices, p)))
      && (forall v :: v in votes ==> 1 <= v.id < nextVoteId)
      && OneVoteEach(votes)
    }

    /** meta.create_all() on an empty database. */
    constructor ()
      ensures Valid()
      ensures polls == [] && choices == [] && votes == []
      ensures nextPollId == 1 && nextChoiceId == 1 && nextVoteId == 1
    {
      polls, choices, votes := [], [], [];
      nextPollId, nextChoiceId, nextVoteId := 1, 1, 1;
    }

    /**
     * create_poll: insert an open poll under a freshly drawn code, then one
     * choice row per option, numbered from 1 in input order.
     */
    method CreatePoll(question: string, options: seq<string>, creator: string, roomId: string, draw: nat -> nat)
      returns (code: string)
      requires Valid()
      modifies this
      ensures Valid()
      ensures code == GenerateRandomString(draw)
      ensures polls == old(polls) + [PollRow(old(nextPollId), code, creator, roomId, question, true)]
      ensures choices == old(choices) + NewChoices(old(nextChoiceId), old(nextPollId), options)
      ensures ChoicesOf(choices, old(nextPollId)) == NewChoices(old(nextChoiceId), old(nextPollId), options)
      ensures forall p :: p != old(nextPollId) ==> ChoicesOf(choices, p) == ChoicesOf(old(choices), p)
      ensures votes == old(votes)
      ensures nextPollId == old(nextPollId) + 1
      ensures nextChoiceId == old(nextChoiceId) + |options|
      ensures nextVoteId == old(nextVoteId)
    {
      code := GenerateRandomString(draw);
      var pollId := nextPollId;
      polls := polls + [PollRow(pollId, code, creator, roomId, question, true)];
      nextPollId := nextPollId + 1;
      ghost var firstId := nextChoiceId;
      for index := 0 to |options|
        invariant nextChoiceId == firstId + index
        invariant choices == old(choices) + NewChoices(firstId, pollId, options[..index])
        invariant polls == old(polls) + [PollRow(pollId, code, creator, roomId, question, true)]
        invariant votes == old(votes) && nextPollId == pollId + 1 && nextVoteId == old(nextVoteId)
      {
        var row := ChoiceRow(nextChoiceId, pollId, index + 1, options[index]);
        assert NewChoices(firstId, pollId, options[..index + 1]) == NewChoices(firstId, pollId, options[..index]) + [row];
        choices := choices + [row];
        nextChoiceId := nextChoiceId + 1;
      }
      assert options[..|options|] == options;
      InsertedChoices(old(choices), firstId, pollId, options);
    }

    /** close_poll: turn still_open off for the poll with that id. */
    method ClosePoll(pollId: int)
      requires Valid()
      modifies this
      ensures Valid()
      ensures polls == ClosedIn(old(polls), pollId)
      ensures choices == old(choices) && votes == old(votes)
      ensures nextPollId == old(nextPollId) && nextChoiceId == old(nextChoiceId) && nextVoteId == old(nextVoteId)
    {
      polls := ClosedIn(polls, pollId);
    }

    /** get_poll: a poll whose room and code both match, or the empty Poll. */
    method GetPoll(roomId: string, code: string) returns (poll: Poll)
      ensures IsLookup(polls, roomId, code, poll)
    {
      if exists i :: 0 <= i < |polls| && Matches(polls[i], roomId, code) {
        var i :| 0 <= i < |polls| && Matches(polls[i], roomId, code);
        poll := AsPoll(polls[i]);
      } else {
        poll := NoPoll;
      }
    }

    /** get_poll_choices: the poll's choice rows. */
    method GetPollChoices(pollId: int) returns (rows: seq<ChoiceRow>)
      ensures forall c :: c in rows <==> c in choices && c.pollId == pollId
      ensures rows == ChoicesOf(choices, pollId)
    {
      rows := ChoicesOf(choices, pollId);
    }

    /**
     * get_poll_choices_ids: the dict from choice number to choice row id;
     * for a poll with n choices its keys are exactly 1..n.
     */
    method GetPollChoicesIds(pollId: int) returns (ids: map<int, int>)
      ensures ids == ChoiceIdMap(ChoicesOf(choices, pollId))
      ensures Numbered(ChoicesOf(choices, pollId)) ==>
        && (forall k :: k in ids <==> 1 <= k <= |ChoicesOf(choices, pollId)|)
        && (forall i :: 0 <= i < |ChoicesOf(choices, pollId)| ==> ids[i + 1] == ChoicesOf(choices, pollId)[i].id)
    {
      var rows := GetPollChoices(pollId);
      ids := map[];
      for i := 0 to |rows|
        invariant ids == ChoiceIdMap(rows[..i])
      {
        assert rows[..i + 1][..i] == rows[..i];
        ids := ids[rows[i].choiceNumber := rows[i].id];
      }
      assert rows[..|rows|] == rows;
      if Numbered(rows) {
        NumberedIdMap(rows);
      }
    }

    /** set_vote: delete the voter's vote in the poll, then insert the new one. */
    method SetVote(pollId: int, choiceId: int, userId: string)
      requires Valid()
      modifies this
      ensures Valid()
      ensures votes == Retained(old(votes), pollId, userId) + [VoteRow(old(nextVoteId), pollId, choiceId, userId)]
      ensures polls == old(polls) && choices == old(choices)
      ensures nextPollId == old(nextPollId) && nextChoiceId == old(nextChoiceId) && nextVoteId == old(nextVoteId) + 1
    {
      var added := VoteRow(nextVoteId, pollId, choiceId, userId);
      SetVoteKeepsOneVoteEach(votes, pollId, userId, added);
      votes := Retained(votes, pollId, userId);
      votes := votes + [added];
      nextVoteId := nextVoteId + 1;
    }

    /** get_votes: the poll's vote rows. */
    method GetVotes(pollId: int) returns (rows: seq<VoteRow>)
      ensures forall v :: v in rows <==> v in votes && v.pollId == pollId
      ensures rows == VotesOf(votes, pollId)
    {
      rows := VotesOf(votes, pollId);
    }
  }
}
