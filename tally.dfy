/**
 * The tally of polls/pollplugin.py (_sort_choices), as functions of a
 * poll's choice rows and vote rows that follow the method step by step:
 * the data dict after the first loop (Seeded, KeyOrder), after the second
 * loop (Cast), list(data.values()) (Values), the sort by number (SortBy)
 * and the sort of each voter list (SortVoters).
 */
module Tallying {
  import opened Wrappers
  import opened Text
  import opened Sorting
  import opened Database

  /** A tallied choice (the Choice object of types.py): number, content, voters. */
  datatype Entry = Entry(number: int, content: string, votes: seq<string>)

  datatype TallyResult = TallyResult(totalVotes: nat, choices: seq<Entry>)

  predicate NumberLe(a: Entry, b: Entry) { a.number <= b.number }

  predicate DistinctIds(cs: seq<ChoiceRow>) {
    forall i, j :: 0 <= i < j < |cs| ==> cs[i].id != cs[j].id
  }

  /** data after the first loop: an entry without voters per choice id, a later row replacing an earlier one. */
  function Seeded(cs: seq<ChoiceRow>): (data: map<int, Entry>)
    ensures forall id :: id in data ==> data[id].votes == []
    ensures forall id :: id in data <==> id in ChoiceIds(cs)
  {
    if cs == [] then map[]
    else
      var c := cs[|cs| - 1];
      Seeded(cs[..|cs| - 1])[c.id := Entry(c.choiceNumber, c.content, [])]
  }

  /** The order of data's keys: the order in which each id was first inserted. */
  function KeyOrder(cs: seq<ChoiceRow>): (order: seq<int>)
    ensures forall id :: id in order <==> id in Seeded(cs)
  {
    if cs == [] then []
    else
      var c := cs[|cs| - 1];
      var o := KeyOrder(cs[..|cs| - 1]);
      if c.id in o then o else o + [c.id]
  }

  /** A dict lists each of its keys once. */
  lemma {:induction false} KeyOrderDistinct(cs: seq<ChoiceRow>)
    ensures forall i, j :: 0 <= i < j < |KeyOrder(cs)| ==> KeyOrder(cs)[i] != KeyOrder(cs)[j]
  {
    if cs != [] {
      KeyOrderDistinct(cs[..|cs| - 1]);
    }
  }

  /** The voters of the votes for one choice id, in vote-row order. */
  function VotersFor(vs: seq<VoteRow>, choiceId: int): (r: seq<string>)
    ensures |r| <= |vs|
  {
    if vs == [] then []
    else
      var v := vs[|vs| - 1];
      VotersFor(vs[..|vs| - 1], choiceId) + (if v.choiceId == choiceId then [v.voter] else [])
  }

  /** data after the second loop: each vote's voter appended to its choice; Failure(id) where data[id] raises KeyError. */
  function Cast(data: map<int, Entry>, vs: seq<VoteRow>): (r: Result<map<int, Entry>, int>)
    ensures r.Success? ==> r.value.Keys == data.Keys
  {
    if vs == [] then Success(data)
    else
      match Cast(data, vs[..|vs| - 1])
      case Failure(id) => Failure(id)
      case Success(d) =>
        var v := vs[|vs| - 1];
        if v.choiceId in d then Success(d[v.choiceId := d[v.choiceId].(votes := d[v.choiceId].votes + [v.voter])])
        else Failure(v.choiceId)
  }

  /** list(data.values()) for a dict whose keys were inserted in the given order. */
  /** list(data.values()): one entry per key, in key order. */
  function Values(data: map<int, Entry>, order: seq<int>): (es: seq<Entry>)
    requires forall k :: 0 <= k < |order| ==> order[k] in data
    ensures |es| == |order|
    ensures forall e :: e in es ==> e in data.Values
  {
    seq(|order|, k requires 0 <= k < |order| => data[order[k]])
  }

  /** for choice in choices: choice.votes.sort() */
  function SortVoters(es: seq<Entry>): (r: seq<Entry>)
    ensures |r| == |es|
    ensures forall k :: 0 <= k < |r| ==>
      && r[k].number == es[k].number && r[k].content == es[k].content
      && SortedBy(r[k].votes, LexLe) && multiset(r[k].votes) == multiset(es[k].votes)
  {
    VoterListsSorted(es);
    seq(|es|, k requires 0 <= k < |es| => es[k].(votes := SortBy(es[k].votes, LexLe)))
  }

  lemma VoterListsSorted(es: seq<Entry>)
    ensures forall k :: 0 <= k < |es| ==> SortedBy(SortBy(es[k].votes, LexLe), LexLe)
  {
    LexOrder();
    forall k | 0 <= k < |es| ensures SortedBy(SortBy(es[k].votes, LexLe), LexLe) {
      SortBySorted(es[k].votes, LexLe);
    }
  }

  /** _sort_choices on a poll's choice rows and vote rows; Failure(id) where it raises KeyError(id). */
  function Tally(cs: seq<ChoiceRow>, vs: seq<VoteRow>): (r: Result<TallyResult, int>)
    ensures r.Success? ==> r.value.totalVotes == |vs|
    ensures r.Success? ==> |r.value.choices| == |KeyOrder(cs)|
  {
    match Cast(Seeded(cs), vs)
    case Failure(id) => Failure(id)
    case Success(data) => Success(TallyResult(|vs|, SortVoters(SortBy(Values(data, KeyOrder(cs)), NumberLe))))
  }

  /** The number of voters over all entries: sum of len(choice.votes). */
  function VoteCount(es: seq<Entry>): nat
  {
    if es == [] then 0 else |es[0].votes| + VoteCount(es[1..])
  }

  // ------------------------------------------------------------- lemmas

  lemma NumberOrder()
    ensures TotalPreorder(NumberLe)
  {
  }

  lemma LexOrder()
    ensures TotalPreorder(LexLe)
  {
    forall a, b ensures LexLe(a, b) || LexLe(b, a) {
      LexLeTotal(a, b);
    }
    forall a, b, c | LexLe(a, b) && LexLe(b, c) ensures LexLe(a, c) {
      LexLeTransitive(a, b, c);
    }
  }

  /** The second loop succeeds exactly when every vote names a key of data, and then appends each choice's voters. */
  lemma {:induction false} CastSpec(data: map<int, Entry>, vs: seq<VoteRow>)
    ensures Cast(data, vs).Success? <==> forall v :: v in vs ==> v.choiceId in data
    ensures Cast(data, vs).Success? ==>
      forall id :: id in data ==> Cast(data, vs).value[id] == data[id].(votes := data[id].votes + VotersFor(vs, id))
    ensures Cast(data, vs).Failure? ==>
      Cast(data, vs).error !in data && exists v :: v in vs && v.choiceId == Cast(data, vs).error
  {
    if vs != [] {
      var init := vs[..|vs| - 1];
      var v := vs[|vs| - 1];
      CastSpec(data, init);
      assert forall u :: u in vs <==> u in init || u == v;
      match Cast(data, init)
      case Failure(id) =>
        var u :| u in init && u.choiceId == id;
        assert u in vs;
      case Success(d) =>
        if v.choiceId in d {
          forall id | id in data
            ensures Cast(data, vs).value[id] == data[id].(votes := data[id].votes + VotersFor(vs, id))
          {
            assert data[id].votes + VotersFor(init, id) + (if v.choiceId == id then [v.voter] else [])
                == data[id].votes + VotersFor(vs, id);
          }
        }
    }
  }

  /** Once the second loop has raised, the later votes do not matter. */
  lemma {:induction false} CastFailureStays(data: map<int, Entry>, vs: seq<VoteRow>, n: nat)
    requires n <= |vs|
    requires Cast(data, vs[..n]).Failure?
    ensures Cast(data, vs) == Cast(data, vs[..n])
    decreases |vs|
  {
    if n == |vs| {
      assert vs[..n] == vs;
    } else {
      var init := vs[..|vs| - 1];
      assert init[..n] == vs[..n];
      CastFailureStays(data, init, n);
    }
  }

  /** With distinct ids the first loop keeps the row order and the row of each id. */
  lemma SeededRows(cs: seq<ChoiceRow>)
    requires DistinctIds(cs)
    ensures forall k :: 0 <= k < |cs| ==>
      cs[k].id in Seeded(cs) && Seeded(cs)[cs[k].id] == Entry(cs[k].choiceNumber, cs[k].content, [])
    ensures |KeyOrder(cs)| == |cs|
    ensures forall k :: 0 <= k < |cs| ==> KeyOrder(cs)[k] == cs[k].id
  {
    SeededAt(cs);
    KeyOrderRows(cs);
  }

  lemma {:induction false} SeededAt(cs: seq<ChoiceRow>)
    requires DistinctIds(cs)
    ensures forall k :: 0 <= k < |cs| ==>
      cs[k].id in Seeded(cs) && Seeded(cs)[cs[k].id] == Entry(cs[k].choiceNumber, cs[k].content, [])
  {
    if cs != [] {
      var init := cs[..|cs| - 1];
      var c := cs[|cs| - 1];
      assert DistinctIds(init);
      SeededAt(init);
      var before := Seeded(init);
      assert Seeded(cs) == before[c.id := Entry(c.choiceNumber, c.content, [])];
      forall k | 0 <= k < |cs|
        ensures cs[k].id in Seeded(cs) && Seeded(cs)[cs[k].id] == Entry(cs[k].choiceNumber, cs[k].content, [])
      {
        if k < |init| {
          assert init[k] == cs[k];
          assert cs[k].id != c.id;
        }
      }
    }
  }

  lemma {:induction false} KeyOrderRows(cs: seq<ChoiceRow>)
    requires DistinctIds(cs)
    ensures |KeyOrder(cs)| == |cs|
    ensures forall k :: 0 <= k < |cs| ==> KeyOrder(cs)[k] == cs[k].id
  {
    if cs != [] {
      var init := cs[..|cs| - 1];
      var c := cs[|cs| - 1];
      assert DistinctIds(init);
      KeyOrderRows(init);
      var before := KeyOrder(init);
      assert c.id !in before by {
        forall k | 0 <= k < |init| ensures before[k] != c.id {
          assert init[k] == cs[k];
        }
      }
      assert KeyOrder(cs) == before + [c.id];
      forall k | 0 <= k < |cs| ensures KeyOrder(cs)[k] == cs[k].id {
        if k < |init| {
          assert init[k] == cs[k];
        }
      }
    }
  }

  /** The number of rows with a given id. */
  function IdOccurrences(cs: seq<ChoiceRow>, id: int): nat
  {
    if cs == [] then 0 else (if cs[0].id == id then 1 else 0) + IdOccurrences(cs[1..], id)
  }

  /** Sum over the choices of the number of votes naming each. */
  function VotesPerChoice(cs: seq<ChoiceRow>, vs: seq<VoteRow>): nat
  {
    if cs == [] then 0 else |VotersFor(vs, cs[0].id)| + VotesPerChoice(cs[1..], vs)
  }

  lemma {:induction false} IdAbsent(cs: seq<ChoiceRow>, id: int)
    requires forall k :: 0 <= k < |cs| ==> cs[k].id != id
    ensures IdOccurrences(cs, id) == 0
  {
    if cs != [] {
      IdAbsent(cs[1..], id);
    }
  }

  lemma {:induction false} IdOnce(cs: seq<ChoiceRow>, k: nat)
    requires DistinctIds(cs)
    requires k < |cs|
    ensures IdOccurrences(cs, cs[k].id) == 1
  {
    if k == 0 {
      IdAbsent(cs[1..], cs[0].id);
    } else {
      assert DistinctIds(cs[1..]);
      IdOnce(cs[1..], k - 1);
    }
  }

  lemma {:induction false} ChoiceIdsIndex(cs: seq<ChoiceRow>, id: int)
    requires id in ChoiceIds(cs)
    ensures exists k :: 0 <= k < |cs| && cs[k].id == id
  {
    var init := cs[..|cs| - 1];
    if id in ChoiceIds(init) {
      ChoiceIdsIndex(init, id);
      var k :| 0 <= k < |init| && init[k].id == id;
      assert cs[k] == init[k];
    } else {
      assert cs[|cs| - 1].id == id;
    }
  }

  lemma {:induction false} VotesPerChoiceStep(cs: seq<ChoiceRow>, vs: seq<VoteRow>)
    requires vs != []
    ensures VotesPerChoice(cs, vs) == VotesPerChoice(cs, vs[..|vs| - 1]) + IdOccurrences(cs, vs[|vs| - 1].choiceId)
  {
    if cs != [] {
      VotesPerChoiceStep(cs[1..], vs);
    }
  }

  /** With distinct ids and every vote naming one of them, each vote is counted once. */
  lemma {:induction false} EveryVoteCountedOnce(cs: seq<ChoiceRow>, vs: seq<VoteRow>)
    requires DistinctIds(cs)
    requires forall v :: v in vs ==> v.choiceId in ChoiceIds(cs)
    ensures VotesPerChoice(cs, vs) == |vs|
  {
    if vs == [] {
      VotesPerChoiceEmpty(cs);
    } else {
      var init := vs[..|vs| - 1];
      var v := vs[|vs| - 1];
      assert forall u :: u in init ==> u in vs;
      EveryVoteCountedOnce(cs, init);
      VotesPerChoiceStep(cs, vs);
      ChoiceIdsIndex(cs, v.choiceId);
      var k :| 0 <= k < |cs| && cs[k].id == v.choiceId;
      IdOnce(cs, k);
    }
  }

  lemma {:induction false} VotesPerChoiceEmpty(cs: seq<ChoiceRow>)
    ensures VotesPerChoice(cs, []) == 0
  {
    if cs != [] {
      VotesPerChoiceEmpty(cs[1..]);
    }
  }

  lemma {:induction false} VoteCountMatches(es: seq<Entry>, cs: seq<ChoiceRow>, vs: seq<VoteRow>)
    requires |es| == |cs|
    requires forall k :: 0 <= k < |es| ==> |es[k].votes| == |VotersFor(vs, cs[k].id)|
    ensures VoteCount(es) == VotesPerChoice(cs, vs)
  {
    if es != [] {
      VoteCountMatches(es[1..], cs[1..], vs);
    }
  }

  /**
   * The tally of a store's poll (distinct choice ids, choices numbered
   * 1..n, every vote naming one of the poll's choices) succeeds; the total
   * is the number of vote rows and the sum of the voter-list lengths; entry
   * k is choice number k+1 with exactly the voters of that choice's id,
   * sorted.
   */
  lemma {:induction false} TallyOfNumberedChoices(cs: seq<ChoiceRow>, vs: seq<VoteRow>)
    requires DistinctIds(cs)
    requires Numbered(cs)
    requires forall v :: v in vs ==> v.choiceId in ChoiceIds(cs)
    ensures Tally(cs, vs).Success?
    ensures Tally(cs, vs).value.totalVotes == |vs|
    ensures VoteCount(Tally(cs, vs).value.choices) == |vs|
    ensures |Tally(cs, vs).value.choices| == |cs|
    ensures forall k :: 0 <= k < |cs| ==>
      Tally(cs, vs).value.choices[k] == Entry(k + 1, cs[k].content, SortBy(VotersFor(vs, cs[k].id), LexLe))
    ensures forall k :: 0 <= k < |cs| ==>
      && SortedBy(Tally(cs, vs).value.choices[k].votes, LexLe)
      && multiset(Tally(cs, vs).value.choices[k].votes) == multiset(VotersFor(vs, cs[k].id))
  {
    var entries := NumberedEntries(cs, vs);
    assert Tally(cs, vs) == Success(TallyResult(|vs|, entries));
    LexOrder();
    forall k | 0 <= k < |cs|
      ensures SortedBy(entries[k].votes, LexLe)
    {
      SortBySorted(VotersFor(vs, cs[k].id), LexLe);
    }
    VoteCountMatches(entries, cs, vs);
    EveryVoteCountedOnce(cs, vs);
  }

  /** The entries of a tally of numbered choices, before the voter lists are sorted, are already in order. */
  lemma NumberedEntries(cs: seq<ChoiceRow>, vs: seq<VoteRow>) returns (entries: seq<Entry>)
    requires DistinctIds(cs)
    requires Numbered(cs)
    requires forall v :: v in vs ==> v.choiceId in ChoiceIds(cs)
    ensures Cast(Seeded(cs), vs).Success?
    ensures forall k :: 0 <= k < |KeyOrder(cs)| ==> KeyOrder(cs)[k] in Cast(Seeded(cs), vs).value
    ensures entries == SortVoters(SortBy(Values(Cast(Seeded(cs), vs).value, KeyOrder(cs)), NumberLe))
    ensures |entries| == |cs|
    ensures forall k :: 0 <= k < |cs| ==> entries[k] == Entry(k + 1, cs[k].content, SortBy(VotersFor(vs, cs[k].id), LexLe))
  {
    var seeded := Seeded(cs);
    SeededRows(cs);
    CastSpec(seeded, vs);
    var data := Cast(seeded, vs).value;
    var unsorted := Values(data, KeyOrder(cs));
    forall k | 0 <= k < |cs|
      ensures unsorted[k] == Entry(k + 1, cs[k].content, VotersFor(vs, cs[k].id))
    {
      assert KeyOrder(cs)[k] == cs[k].id;
    }
    assert SortedBy(unsorted, NumberLe);
    SortByKeepsSorted(unsorted, NumberLe);
    entries := SortVoters(unsorted);
  }

  /** A vote naming no choice of the poll makes the tally fail with that id: it is not dropped. */
  lemma TallyRejectsUnknownChoice(cs: seq<ChoiceRow>, vs: seq<VoteRow>)
    ensures Tally(cs, vs).Failure? <==> exists v :: v in vs && v.choiceId !in ChoiceIds(cs)
    ensures Tally(cs, vs).Failure? ==>
      Tally(cs, vs).error !in ChoiceIds(cs) && exists v :: v in vs && v.choiceId == Tally(cs, vs).error
  {
    CastSpec(Seeded(cs), vs);
  }

  /** Without votes the total is 0 and every entry has an empty voter list. */
  lemma TallyWithoutVotes(cs: seq<ChoiceRow>)
    ensures Tally(cs, []).Success?
    ensures Tally(cs, []).value.totalVotes == 0
    ensures |Tally(cs, []).value.choices| == |KeyOrder(cs)|
    ensures forall k :: 0 <= k < |Tally(cs, []).value.choices| ==> Tally(cs, []).value.choices[k].votes == []
  {
    var unsorted := Values(Seeded(cs), KeyOrder(cs));
    var sorted := SortBy(unsorted, NumberLe);
    forall k | 0 <= k < |sorted| ensures sorted[k].votes == [] {
      assert sorted[k] in multiset(unsorted);
    }
  }

  /** Whatever the rows, a successful tally lists its entries by ascending choice number. */
  lemma TallyOrdered(cs: seq<ChoiceRow>, vs: seq<VoteRow>)
    requires Tally(cs, vs).Success?
    ensures SortedBy(Tally(cs, vs).value.choices, NumberLe)
  {
    var data := Cast(Seeded(cs), vs).value;
    NumberOrder();
    SortBySorted(Values(data, KeyOrder(cs)), NumberLe);
  }
}
