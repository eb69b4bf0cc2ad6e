/**
 * The command handlers of polls/pollplugin.py: what each of
 * `!poll create`, `!poll close`, `!vote`, `!poll result` and `!poll ping`
 * decides and what it does to the store. Each handler is a method of
 * PollPlugin that follows the source's branches; the pure decision
 * functions next to it say what the handler answers, and the lemmas below
 * them say what those answers mean. Messages are not modelled: a handler
 * returns the value its reply is built from, or the reason it rejects the
 * command.
 */
module Plugin {
  import opened Wrappers
  import opened Text
  import opened Sorting
  import opened Database
  import opened Tallying

  // ------------------------------------------------------- _remove_suffix

  predicate EndsWith(s: string, suffix: string) {
    |suffix| <= |s| && s[|s| - |suffix|..] == suffix
  }

  /** _remove_suffix: drop a non-empty suffix the string ends with; otherwise keep the string. */
  function RemoveSuffix(s: string, suffix: string): (r: string)
    ensures suffix != [] && EndsWith(s, suffix) ==> r + suffix == s
    ensures !(suffix != [] && EndsWith(s, suffix)) ==> r == s
  {
    if suffix != [] && EndsWith(s, suffix) then s[..|s| - |suffix|] else s
  }

  /** Removing a suffix that was just appended gives back the string. */
  lemma RemoveAppendedSuffix(s: string, suffix: string)
    requires suffix != []
    ensures RemoveSuffix(s + suffix, suffix) == s
  {
    assert (s + suffix)[|s|..] == suffix;
    assert (s + suffix)[..|s|] == s;
  }

  // ------------------------------------------------------------ decisions

  /** Why a handler rejects a command (the reply it sends instead). */
  datatype Rejection =
    | NoContent             // "Please provide the content for the poll"
    | TooFewOptions         // "Please enter at least 2 options"
    | PollMissing           // "This poll does not exist!"
    | NotCreator            // "Only the creator of the poll can ..."
    | PollClosed            // "... is already closed"
    | InvalidOption         // ValueError: "Please enter a valid option!" / "You must specify a valid option!"
    | NoSuchOption          // KeyError in vote_poll: "There is no such option."
    | UnknownChoice(choiceId: int) // KeyError raised by _sort_choices, not caught by the handler

  /** The creator test of close, poll_result and ping_poll: equal after stripping whitespace. */
  predicate SameUser(a: string, b: string)
    ensures Strip(a) == b ==> SameUser(a, b)
    ensures a == Strip(b) ==> SameUser(a, b)
  {
    StripIdempotent(a);
    StripIdempotent(b);
    Strip(a) == Strip(b)
  }

  datatype PollContent = PollContent(question: string, options: seq<string>)

  /** [part.strip() for part in parts] */
  function StripAll(parts: seq<string>): (r: seq<string>)
    ensures |r| == |parts|
    ensures forall k :: 0 <= k < |r| ==> |r[k]| <= |parts[k]|
    ensures forall k :: 0 <= k < |r| && r[k] != [] ==> !IsSpace(r[k][0]) && !IsSpace(r[k][|r[k]| - 1])
  {
    seq(|parts|, k requires 0 <= k < |parts| => Strip(parts[k]))
  }

  /** What create_poll makes of its raw argument: the stripped '|'-separated parts, question first. */
  function ParsePollContent(content: string): (r: Result<PollContent, Rejection>)
    ensures r == Failure(NoContent) <==> content == ""
    ensures r == Failure(TooFewOptions) <==> content != "" && Occurrences(content, '|') < 2
    ensures r.Success? ==> |r.value.options| == Occurrences(content, '|')
  {
    if content == "" then Failure(NoContent)
    else
      var parts := StripAll(Split(content, '|'));
      if |parts| < 3 then Failure(TooFewOptions)
      else Success(PollContent(parts[0], parts[1..]))
  }

  /** The checks close makes of the looked-up poll; on success the id of the poll to close. */
  function CloseDecision(poll: Poll, sender: string): (r: Result<int, Rejection>)
    ensures r == Failure(PollMissing) <==> !poll.Exists()
    ensures r == Failure(NotCreator) <==> poll.Exists() && !SameUser(poll.creator, sender)
    ensures r == Failure(PollClosed) <==> poll.Exists() && SameUser(poll.creator, sender) && !poll.stillOpen
    ensures r.Success? <==> poll.Exists() && SameUser(poll.creator, sender) && poll.stillOpen
    ensures r.Success? ==> r.value == poll.id
  {
    if !poll.Exists() then Failure(PollMissing)
    else if !SameUser(poll.creator, sender) then Failure(NotCreator)
    else if !poll.stillOpen then Failure(PollClosed)
    else Success(poll.id)
  }

  /** What vote_poll decides, given the choice tables: on success the id of the chosen choice row. */
  function VoteDecision(poll: Poll, choice: string, choices: seq<ChoiceRow>): (r: Result<int, Rejection>)
    ensures r == Failure(PollMissing) <==> !poll.Exists()
    ensures r == Failure(PollClosed) <==> poll.Exists() && !poll.stillOpen
    ensures r == Failure(InvalidOption) <==> poll.Exists() && poll.stillOpen && ParseInt(choice).None?
    ensures r == Failure(NoSuchOption) <==>
      poll.Exists() && poll.stillOpen && ParseInt(choice).Some?
      && ParseInt(choice).value !in ChoiceIdMap(ChoicesOf(choices, poll.id))
    ensures r.Success? ==>
      && poll.Exists() && poll.stillOpen && ParseInt(choice).Some?
      && ParseInt(choice).value in ChoiceIdMap(ChoicesOf(choices, poll.id))
      && r.value == ChoiceIdMap(ChoicesOf(choices, poll.id))[ParseInt(choice).value]
      && r.value in ChoiceIds(ChoicesOf(choices, poll.id))
  {
    if !poll.Exists() then Failure(PollMissing)
    else if !poll.stillOpen then Failure(PollClosed)
    else
      var ids := ChoiceIdMap(ChoicesOf(choices, poll.id));
      match ParseInt(choice)
      case None => Failure(InvalidOption)
      case Some(n) => if n in ids then Success(ids[n]) else Failure(NoSuchOption)
  }

  /** What poll_result shows: the question, "open" or "closed", the tally and each choice's share. */
  datatype ResultView = ResultView(question: string, status: string, totalVotes: nat, choices: seq<Entry>, shares: seq<real>)

  function Status(poll: Poll): (r: string)
    requires poll.Exists()
    ensures r == "open" <==> poll.stillOpen
    ensures r == "closed" <==> !poll.stillOpen
  {
    if poll.stillOpen then "open" else "closed"
  }

  function ResultDecision(poll: Poll, sender: string, choices: seq<ChoiceRow>, votes: seq<VoteRow>): (r: Result<ResultView, Rejection>)
    ensures r == Failure(PollMissing) <==> !poll.Exists()
    ensures r == Failure(NotCreator) <==> poll.Exists() && !SameUser(poll.creator, sender)
    ensures r.Success? ==> poll.Exists() && SameUser(poll.creator, sender)
  {
    if !poll.Exists() then Failure(PollMissing)
    else if !SameUser(poll.creator, sender) then Failure(NotCreator)
    else
      match Tally(ChoicesOf(choices, poll.id), VotesOf(votes, poll.id))
      case Failure(id) => Failure(UnknownChoice(id))
      case Success(t) => Success(ResultView(poll.question, Status(poll), t.totalVotes, t.choices, Shares(t.choices, t.totalVotes)))
  }

  /** The index of the first entry with the given number, |es| when there is none. */
  function FirstWithNumber(es: seq<Entry>, n: int): (k: nat)
    ensures k <= |es|
    ensures forall j :: 0 <= j < k ==> es[j].number != n
    ensures k < |es| ==> es[k].number == n
  {
    if es == [] then 0 else if es[0].number == n then 0 else 1 + FirstWithNumber(es[1..], n)
  }

  /** The first line of ping_poll's reply; it never ends in ", ", so the suffix removal leaves it whole. */
  function PingHeader(opt: int, content: string): (r: string)
    ensures |r| >= 9 && r[..9] == "**Option "
    ensures !EndsWith(r, ", ")
  {
    var r := "**Option " + Decimal(opt) + ":** *" + content + "* \n\n";
    assert r[|r| - 1] == '\n';
    r
  }

  /** msg after the loop over the voters: each voter followed by ", ". */
  function Accumulated(voters: seq<string>): (r: string)
    ensures voters == [] <==> r == ""
    ensures voters != [] ==> EndsWith(r, ", ")
  {
    if voters == [] then "" else Accumulated(voters[..|voters| - 1]) + voters[|voters| - 1] + ", "
  }

  /** The reply: the header alone without voters, otherwise the accumulated message without its last ", ". */
  function PingReply(opt: int, e: Entry): (r: string)
    ensures e.votes == [] ==> r == PingHeader(opt, e.content)
    ensures e.votes != [] ==> r + ", " == PingHeader(opt, e.content) + Accumulated(e.votes)
  {
    var h := PingHeader(opt, e.content);
    var a := Accumulated(e.votes);
    assert e.votes == [] ==> h + a == h;
    assert a != [] ==> (h + a)[|h + a| - 2..] == a[|a| - 2..];
    RemoveSuffix(PingHeader(opt, e.content) + Accumulated(e.votes), ", ")
  }

  /** What ping_poll decides: on success the text of its reply. */
  function PingDecision(poll: Poll, sender: string, option: string, choices: seq<ChoiceRow>, votes: seq<VoteRow>): (r: Result<string, Rejection>)
    ensures r == Failure(PollMissing) <==> !poll.Exists()
    ensures r == Failure(NotCreator) <==> poll.Exists() && !SameUser(poll.creator, sender)
    ensures poll.Exists() && SameUser(poll.creator, sender) && ParseInt(option).None? ==> r == Failure(InvalidOption)
    ensures r.Success? ==> poll.Exists() && SameUser(poll.creator, sender) && ParseInt(option).Some?
  {
    if !poll.Exists() then Failure(PollMissing)
    else if !SameUser(poll.creator, sender) then Failure(NotCreator)
    else
      match ParseInt(option)
      case None => Failure(InvalidOption)
      case Some(opt) =>
        match Tally(ChoicesOf(choices, poll.id), VotesOf(votes, poll.id))
        case Failure(id) => Failure(UnknownChoice(id))
        case Success(t) =>
          var k := FirstWithNumber(t.choices, opt);
          if k < |t.choices| then Success(PingReply(opt, t.choices[k])) else Failure(InvalidOption)
  }

  // ------------------------------------------------------ the result share

  /**
   * len(choice.votes) / total_votes for each choice, as the result
   * messages compute it: None where Python raises ZeroDivisionError, which
   * is whenever the poll has a choice and no votes.
   */
  function SharesAsWritten(es: seq<Entry>, total: nat): (r: Option<seq<real>>)
    ensures r.None? <==> es != [] && total == 0
    ensures r.Some? ==> |r.value| == |es|
    ensures r.Some? ==> forall k :: 0 <= k < |es| ==> r.value[k] * (total as real) == |es[k].votes| as real
  {
    if es == [] then Some([])
    else if total == 0 then None
    else Some(seq(|es|, k requires 0 <= k < |es| => (|es[k].votes| as real) / (total as real)))
  }

  /** Each choice's share of the votes, 0 for a poll nobody has voted in. */
  function Shares(es: seq<Entry>, total: nat): (r: seq<real>)
    ensures |r| == |es|
    ensures total == 0 ==> forall k :: 0 <= k < |r| ==> r[k] == 0.0
    ensures total > 0 ==> forall k :: 0 <= k < |r| ==> r[k] * (total as real) == |es[k].votes| as real
  {
    seq(|es|, k requires 0 <= k < |es| => if total == 0 then 0.0 else (|es[k].votes| as real) / (total as real))
  }

  function Sum(rs: seq<real>): real
  {
    if rs == [] then 0.0 else rs[0] + Sum(rs[1..])
  }

  /** The result of a poll with a choice and no votes cannot be shown as written: the share divides by zero. */
  lemma UnvotedResultFails(cs: seq<ChoiceRow>)
    requires cs != []
    ensures Tally(cs, []).Success?
    ensures Tally(cs, []).value.totalVotes == 0
    ensures SharesAsWritten(Tally(cs, []).value.choices, 0) == None
  {
    TallyWithoutVotes(cs);
    assert cs[0].id in ChoiceIds(cs);
    assert cs[0].id in KeyOrder(cs);
  }

  /** The corrected shares agree with the written ones wherever those do not fail. */
  lemma SharesAgree(es: seq<Entry>, total: nat)
    requires SharesAsWritten(es, total).Some?
    ensures SharesAsWritten(es, total) == Some(Shares(es, total))
  {
    var written := SharesAsWritten(es, total).value;
    if es == [] {
      assert Shares(es, total) == [];
    } else {
      assert |written| == |es|;
      forall k | 0 <= k < |es| ensures written[k] == Shares(es, total)[k] {
      }
      assert written == Shares(es, total);
    }
  }

  lemma {:induction false} VotesWithinCount(es: seq<Entry>, k: nat)
    requires k < |es|
    ensures |es[k].votes| <= VoteCount(es)
  {
    if k > 0 {
      VotesWithinCount(es[1..], k - 1);
    }
  }

  lemma FractionAtMostOne(a: real, t: real)
    requires 0.0 <= a <= t
    requires 0.0 < t
    ensures 0.0 <= a / t <= 1.0
  {
    assert a / t * t == a;
  }

  /** Each share lies between 0 and 1 when the total counts every listed vote. */
  lemma SharesBounded(es: seq<Entry>, total: nat)
    requires VoteCount(es) == total
    ensures forall k :: 0 <= k < |es| ==> 0.0 <= Shares(es, total)[k] <= 1.0
  {
    forall k | 0 <= k < |es| ensures 0.0 <= Shares(es, total)[k] <= 1.0 {
      VotesWithinCount(es, k);
      if total > 0 {
        FractionAtMostOne(|es[k].votes| as real, total as real);
      }
    }
  }

  lemma AddFractions(a: real, b: real, t: real)
    requires t > 0.0
    ensures a / t + b / t == (a + b) / t
  {
  }

  lemma {:induction false} SumShares(es: seq<Entry>, total: nat)
    requires total > 0
    ensures Sum(Shares(es, total)) == (VoteCount(es) as real) / (total as real)
  {
    if es != [] {
      var t := total as real;
      assert Shares(es, total)[1..] == Shares(es[1..], total);
      SumShares(es[1..], total);
      var a := |es[0].votes| as real;
      var b := VoteCount(es[1..]) as real;
      assert Shares(es, total)[0] == a / t;
      AddFractions(a, b, t);
    }
  }

  /** When the total counts every listed vote and is not 0, the shares add up to 1. */
  lemma SharesSumToOne(es: seq<Entry>, total: nat)
    requires VoteCount(es) == total > 0
    ensures Sum(Shares(es, total)) == 1.0
  {
    SumShares(es, total);
    WholeFraction(total as real);
  }

  lemma WholeFraction(t: real)
    requires t > 0.0
    ensures t / t == 1.0
  {
  }

  // ---------------------------------------------------- what they all mean

  /** Every vote names a choice of its own poll. */
  predicate VotesReferToChoices(choices: seq<ChoiceRow>, votes: seq<VoteRow>) {
    forall v :: v in votes ==> v.choiceId in ChoiceIds(ChoicesOf(choices, v.pollId))
  }

  /** In a store whose votes name choices of their polls, a poll's rows meet the tally's requirements. */
  lemma ConsistentTally(choices: seq<ChoiceRow>, votes: seq<VoteRow>, pollId: int)
    requires IdsAscending(choices)
    requires VotesReferToChoices(choices, votes)
    ensures DistinctIds(ChoicesOf(choices, pollId))
    ensures forall v :: v in VotesOf(votes, pollId) ==> v.choiceId in ChoiceIds(ChoicesOf(choices, pollId))
  {
    ChoicesOfAscending(choices, pollId);
  }

  /** A part as create_poll keeps it: stripped, and without the separator. */
  predicate CleanPart(s: string) {
    (s != [] ==> !IsSpace(s[0]) && !IsSpace(s[|s| - 1])) && '|' !in s
  }

  lemma CleanStrip(s: string)
    requires '|' !in s
    ensures CleanPart(Strip(s))
  {
    var r := Strip(s);
    var a := LeadingSpace(s);
    forall k | 0 <= k < |r| ensures r[k] != '|' {
      assert r[k] == s[a + k];
    }
  }

  /** An accepted content has one option per '|', and every part is clean. */
  lemma ParsePollContentParts(content: string)
    requires ParsePollContent(content).Success?
    ensures |ParsePollContent(content).value.options| == Occurrences(content, '|')
    ensures CleanPart(ParsePollContent(content).value.question)
    ensures forall k :: 0 <= k < |ParsePollContent(content).value.options| ==>
      CleanPart(ParsePollContent(content).value.options[k])
  {
    var raw := Split(content, '|');
    StripAllClean(raw);
  }

  lemma StripAllClean(raw: seq<string>)
    requires forall k :: 0 <= k < |raw| ==> '|' !in raw[k]
    ensures forall k :: 0 <= k < |raw| ==> CleanPart(StripAll(raw)[k])
  {
    forall k | 0 <= k < |raw| ensures CleanPart(StripAll(raw)[k]) {
      CleanStrip(raw[k]);
    }
  }

  /** A question and at least two options, all clean, come back from their '|'-joined text. */
  lemma ParsePollContentJoin(question: string, options: seq<string>)
    requires |options| >= 2
    requires CleanPart(question)
    requires forall k :: 0 <= k < |options| ==> CleanPart(options[k])
    ensures ParsePollContent(Join([question] + options, "|")) == Success(PollContent(question, options))
  {
    var parts := [question] + options;
    forall i | 0 <= i < |parts| ensures CleanPart(parts[i]) {
      if i > 0 {
        assert parts[i] == options[i - 1];
      }
    }
    SplitJoin(parts, '|');
    var content := Join(parts, "|");
    assert Split(content, '|') == parts;
    StripAllKeepsClean(parts);
    assert parts[1..] == options;
  }

  lemma StripAllKeepsClean(parts: seq<string>)
    requires forall k :: 0 <= k < |parts| ==> CleanPart(parts[k])
    ensures StripAll(parts) == parts
  {
    forall k | 0 <= k < |parts| ensures StripAll(parts)[k] == parts[k] {
      StripKeeps(parts[k]);
    }
  }

  predicate UniqueCode(polls: seq<PollRow>, roomId: string, code: string) {
    forall i, j :: 0 <= i < |polls| && 0 <= j < |polls| && Matches(polls[i], roomId, code) && Matches(polls[j], roomId, code) ==> i == j
  }

  /** After a successful close, the same code finds the poll closed, and a second close is refused. */
  lemma CloseThenClosed(polls: seq<PollRow>, roomId: string, code: string, sender: string, poll: Poll, again: Poll)
    requires UniqueCode(polls, roomId, code)
    requires IsLookup(polls, roomId, code, poll)
    requires CloseDecision(poll, sender).Success?
    requires IsLookup(ClosedIn(polls, poll.id), roomId, code, again)
    ensures again == poll.(stillOpen := false)
    ensures CloseDecision(again, sender) == Failure(PollClosed)
  {
    var closed := ClosedIn(polls, poll.id);
    var i :| 0 <= i < |polls| && Matches(polls[i], roomId, code) && poll == AsPoll(polls[i]);
    assert Matches(closed[i], roomId, code);
    var j :| 0 <= j < |closed| && Matches(closed[j], roomId, code) && again == AsPoll(closed[j]);
    assert Matches(polls[j], roomId, code);
  }

  /**
   * In a numbered poll, voting any text int() reads as n (such as str(n))
   * picks the choice numbered n, and succeeds exactly for 1 <= n <= count.
   */
  lemma VoteForNumber(poll: Poll, choices: seq<ChoiceRow>, choice: string, n: int)
    requires poll.Exists() && poll.stillOpen
    requires Numbered(ChoicesOf(choices, poll.id))
    requires ParseInt(choice) == Some(n)
    ensures VoteDecision(poll, choice, choices).Success? <==> 1 <= n <= |ChoicesOf(choices, poll.id)|
    ensures VoteDecision(poll, choice, choices).Success? ==>
      VoteDecision(poll, choice, choices).value == ChoicesOf(choices, poll.id)[n - 1].id
    ensures !(1 <= n <= |ChoicesOf(choices, poll.id)|) ==> VoteDecision(poll, choice, choices) == Failure(NoSuchOption)
  {
    var rows := ChoicesOf(choices, poll.id);
    NumberedIdMap(rows);
    if 1 <= n <= |rows| {
      assert ChoiceIdMap(rows)[(n - 1) + 1] == rows[n - 1].id;
    }
  }

  lemma {:induction false} AccumulatedJoin(voters: seq<string>)
    requires voters != []
    ensures Accumulated(voters) == Join(voters, ", ") + ", "
  {
    var init := voters[..|voters| - 1];
    var x := voters[|voters| - 1];
    assert voters == init + [x];
    if init != [] {
      AccumulatedJoin(init);
      JoinSnoc(init, x, ", ");
    }
  }

  /** ping_poll's reply: the header, then the voters separated by ", ", with no trailing separator. */
  lemma PingReplyJoins(opt: int, e: Entry)
    ensures PingReply(opt, e) == PingHeader(opt, e.content) + Join(e.votes, ", ")
  {
    var h := PingHeader(opt, e.content);
    if e.votes == [] {
      assert h[|h| - 1] == '\n';
      assert !EndsWith(h, ", ");
      assert h + Accumulated(e.votes) == h;
    } else {
      AccumulatedJoin(e.votes);
      assert h + Accumulated(e.votes) == (h + Join(e.votes, ", ")) + ", ";
      RemoveAppendedSuffix(h + Join(e.votes, ", "), ", ");
    }
  }

  /**
   * For the creator of a poll in a consistent store, pinging any text
   * int() reads as n (such as str(n)) answers with choice n's header and its voters, sorted and
   * separated by ", ", exactly when 1 <= n <= count; otherwise it asks for
   * a valid option.
   */
  lemma PingOfConsistentStore(poll: Poll, sender: string, option: string, n: int, choices: seq<ChoiceRow>, votes: seq<VoteRow>)
    requires poll.Exists() && SameUser(poll.creator, sender)
    requires ParseInt(option) == Some(n)
    requires IdsAscending(choices) && Numbered(ChoicesOf(choices, poll.id))
    requires VotesReferToChoices(choices, votes)
    ensures 1 <= n <= |ChoicesOf(choices, poll.id)| ==>
      PingDecision(poll, sender, option, choices, votes)
        == Success(PingHeader(n, ChoicesOf(choices, poll.id)[n - 1].content)
                   + Join(SortBy(VotersFor(VotesOf(votes, poll.id), ChoicesOf(choices, poll.id)[n - 1].id), LexLe), ", "))
    ensures !(1 <= n <= |ChoicesOf(choices, poll.id)|) ==>
      PingDecision(poll, sender, option, choices, votes) == Failure(InvalidOption)
  {
    var cs := ChoicesOf(choices, poll.id);
    var vs := VotesOf(votes, poll.id);
    ConsistentTally(choices, votes, poll.id);
    TallyOfNumberedChoices(cs, vs);
    var es := Tally(cs, vs).value.choices;
    PingOfTally(poll, sender, option, n, choices, votes);
    var k := FirstWithNumber(es, n);
    if 1 <= n <= |cs| {
      assert es[n - 1].number == n;
      assert k == n - 1;
      PingReplyJoins(n, es[k]);
    } else {
      assert k == |es|;
    }
  }

  /** For an option int() reads as n and a successful tally, the ping answers for the first entry numbered n. */
  lemma PingOfTally(poll: Poll, sender: string, option: string, n: int, choices: seq<ChoiceRow>, votes: seq<VoteRow>)
    requires poll.Exists() && SameUser(poll.creator, sender)
    requires ParseInt(option) == Some(n)
    requires Tally(ChoicesOf(choices, poll.id), VotesOf(votes, poll.id)).Success?
    ensures var es := Tally(ChoicesOf(choices, poll.id), VotesOf(votes, poll.id)).value.choices;
      PingDecision(poll, sender, option, choices, votes)
        == if FirstWithNumber(es, n) < |es| then Success(PingReply(n, es[FirstWithNumber(es, n)])) else Failure(InvalidOption)
  {
  }

  /**
   * For the creator of a poll in a consistent store the result is shown:
   * the status, one entry per choice, the total counting every listed
   * vote, each share between 0 and 1 and, once someone voted, all shares
   * adding up to 1.
   */
  lemma ResultOfConsistentStore(poll: Poll, sender: string, choices: seq<ChoiceRow>, votes: seq<VoteRow>)
    requires poll.Exists() && SameUser(poll.creator, sender)
    requires IdsAscending(choices) && Numbered(ChoicesOf(choices, poll.id))
    requires VotesReferToChoices(choices, votes)
    ensures ResultDecision(poll, sender, choices, votes).Success?
    ensures var v := ResultDecision(poll, sender, choices, votes).value;
      && v.question == poll.question
      && v.status == (if poll.stillOpen then "open" else "closed")
      && v.totalVotes == |VotesOf(votes, poll.id)|
      && |v.choices| == |ChoicesOf(choices, poll.id)|
      && VoteCount(v.choices) == v.totalVotes
      && (forall k :: 0 <= k < |v.shares| ==> 0.0 <= v.shares[k] <= 1.0)
      && (v.totalVotes > 0 ==> Sum(v.shares) == 1.0)
  {
    var cs := ChoicesOf(choices, poll.id);
    var vs := VotesOf(votes, poll.id);
    ConsistentTally(choices, votes, poll.id);
    TallyOfNumberedChoices(cs, vs);
    var t := Tally(cs, vs).value;
    SharesBounded(t.choices, t.totalVotes);
    if t.totalVotes > 0 {
      SharesSumToOne(t.choices, t.totalVotes);
    }
  }

  // ------------------------------------------------- the loops of _sort_choices

  /** The first loop of _sort_choices: data keyed by choice id, and its keys in insertion order. */
  method SeedChoices(choices: seq<ChoiceRow>) returns (data: map<int, Entry>, order: seq<int>)
    ensures data == Seeded(choices)
    ensures order == KeyOrder(choices)
    ensures forall k :: 0 <= k < |order| ==> order[k] in data
  {
    data, order := map[], [];
    for i := 0 to |choices|
      invariant data == Seeded(choices[..i])
      invariant order == KeyOrder(choices[..i])
    {
      assert choices[..i + 1][..i] == choices[..i];
      var c := choices[i];
      if c.id !in data {
        order := order + [c.id];
      }
      data := data[c.id := Entry(c.choiceNumber, c.content, [])];
    }
    assert choices[..|choices|] == choices;
  }

  /** The second loop: count the votes and append each voter to its choice; Failure(id) at the first vote data has no key for. */
  method CastVotes(seeded: map<int, Entry>, votes: seq<VoteRow>) returns (r: Result<(nat, map<int, Entry>), int>)
    ensures Cast(seeded, votes).Failure? <==> r.Failure?
    ensures r.Failure? ==> r.error == Cast(seeded, votes).error
    ensures r.Success? ==> r.value == (|votes|, Cast(seeded, votes).value)
  {
    var totalVotes: nat := 0;
    var data := seeded;
    for j := 0 to |votes|
      invariant totalVotes == j
      invariant Cast(seeded, votes[..j]) == Success(data)
    {
      assert votes[..j + 1][..j] == votes[..j];
      var v := votes[j];
      totalVotes := totalVotes + 1;
      if v.choiceId !in data {
        CastFailureStays(seeded, votes, j + 1);
        return Failure(v.choiceId);
      }
      data := data[v.choiceId := data[v.choiceId].(votes := data[v.choiceId].votes + [v.voter])];
    }
    assert votes[..|votes|] == votes;
    r := Success((totalVotes, data));
  }

  /** The third loop: sort each choice's voters. */
  method SortVoterLists(sorted: seq<Entry>) returns (list: seq<Entry>)
    ensures list == SortVoters(sorted)
  {
    list := sorted;
    for k := 0 to |list|
      invariant |list| == |sorted|
      invariant forall m :: 0 <= m < k ==> list[m] == sorted[m].(votes := SortBy(sorted[m].votes, LexLe))
      invariant forall m :: k <= m < |list| ==> list[m] == sorted[m]
    {
      list := list[k := list[k].(votes := SortBy(list[k].votes, LexLe))];
    }
  }

  // ----------------------------------------------------- the loops of ping_poll

  /** The loop over the tallied choices: the index of the first one numbered opt, |choices| when there is none. */
  method FindNumber(choices: seq<Entry>, opt: int) returns (i: nat)
    ensures i == FirstWithNumber(choices, opt)
  {
    i := 0;
    while i < |choices| && choices[i].number != opt
      invariant i <= |choices|
      invariant forall j :: 0 <= j < i ==> choices[j].number != opt
    {
      i := i + 1;
    }
  }

  /** The reply before the trailing ", " is removed: the header, then each voter followed by ", ". */
  method PingMessage(opt: int, e: Entry) returns (msg: string)
    ensures RemoveSuffix(msg, ", ") == PingReply(opt, e)
    ensures RemoveSuffix(msg, ", ") == PingHeader(opt, e.content) + Join(e.votes, ", ")
  {
    msg := PingHeader(opt, e.content);
    var voters := e.votes;
    for m := 0 to |voters|
      invariant msg == PingHeader(opt, e.content) + Accumulated(voters[..m])
    {
      assert voters[..m + 1][..m] == voters[..m];
      msg := msg + voters[m] + ", ";
    }
    assert voters[..|voters|] == voters;
    PingReplyJoins(opt, e);
  }

  // ---------------------------------------------------------- the plugin

  class PollPlugin {
    const db: PollDatabase

    /** The store's invariant, and every vote naming a choice of its poll. */
    ghost predicate Valid()
      reads this, db
    {
      db.Valid() && VotesReferToChoices(db.choices, db.votes)
    }

    /** start(): a plugin over an empty store. */
    constructor ()
      ensures Valid()
      ensures fresh(db)
      ensures db.polls == [] && db.choices == [] && db.votes == []
    {
      db := new PollDatabase();
    }

    /** _sort_choices: the tally of one poll's rows; Failure(id) where it raises KeyError(id). */
    method SortChoices(pollId: int) returns (r: Result<TallyResult, int>)
      ensures r == Tally(ChoicesOf(db.choices, pollId), VotesOf(db.votes, pollId))
    {
      var choices := db.GetPollChoices(pollId);
      var votes := db.GetVotes(pollId);
      var data, order := SeedChoices(choices);
      var cast := CastVotes(data, votes);
      if cast.Failure? {
        return Failure(cast.error);
      }
      var totalVotes := cast.value.0;
      var sorted := SortBy(Values(cast.value.1, order), NumberLe);
      var list := SortVoterLists(sorted);
      r := Success(TallyResult(totalVotes, list));
    }

    /** create_poll: parse the content, then store the poll and its options. */
    method CreatePoll(content: string, sender: string, roomId: string, draw: nat -> nat) returns (r: Result<string, Rejection>)
      requires Valid()
      modifies db
      ensures Valid()
      ensures r.Success? <==> ParsePollContent(content).Success?
      ensures r.Failure? ==> ParsePollContent(content) == Failure(r.error) && unchanged(db)
      ensures r.Success? ==>
        var pc := ParsePollContent(content).value;
        && r.value == GenerateRandomString(draw)
        && db.polls == old(db.polls) + [PollRow(old(db.nextPollId), r.value, sender, roomId, pc.question, true)]
        && db.choices == old(db.choices) + NewChoices(old(db.nextChoiceId), old(db.nextPollId), pc.options)
        && db.votes == old(db.votes)
        && db.nextPollId == old(db.nextPollId) + 1
        && db.nextChoiceId == old(db.nextChoiceId) + |pc.options|
        && db.nextVoteId == old(db.nextVoteId)
    {
      if content == "" {
        return Failure(NoContent);
      }
      var rawParts := Split(content, '|');
      var parts: seq<string> := [];
      for i := 0 to |rawParts|
        invariant parts == StripAll(rawParts[..i])
      {
        assert StripAll(rawParts[..i + 1]) == StripAll(rawParts[..i]) + [Strip(rawParts[i])];
        parts := parts + [Strip(rawParts[i])];
      }
      assert rawParts[..|rawParts|] == rawParts;
      if |parts| < 3 {
        return Failure(TooFewOptions);
      }
      var question := parts[0];
      parts := parts[1..];
      NoChoicesOf(db.choices, db.nextPollId);
      ghost var newId := db.nextPollId;
      var code := db.CreatePoll(question, parts, sender, roomId, draw);
      forall v | v in db.votes ensures v.choiceId in ChoiceIds(ChoicesOf(db.choices, v.pollId)) {
        assert v.pollId != newId;
      }
      r := Success(code);
    }

    /** close: look the poll up, check it, and close it. */
    method Close(roomId: string, code: string, sender: string) returns (r: Result<int, Rejection>)
      requires Valid()
      modifies db
      ensures Valid()
      ensures exists poll :: IsLookup(old(db.polls), roomId, code, poll) && r == CloseDecision(poll, sender)
      ensures db.polls == if r.Success? then ClosedIn(old(db.polls), r.value) else old(db.polls)
      ensures db.choices == old(db.choices) && db.votes == old(db.votes)
      ensures db.nextPollId == old(db.nextPollId) && db.nextChoiceId == old(db.nextChoiceId) && db.nextVoteId == old(db.nextVoteId)
    {
      var poll := db.GetPoll(roomId, code);
      if !poll.Exists() {
        return Failure(PollMissing);
      }
      if !SameUser(poll.creator, sender) {
        return Failure(NotCreator);
      }
      if !poll.stillOpen {
        return Failure(PollClosed);
      }
      db.ClosePoll(poll.id);
      r := Success(poll.id);
    }

    /** vote_poll: look the poll up, check it, resolve the option, and record the vote. */
    method VotePoll(roomId: string, code: string, choice: string, sender: string) returns (r: Result<int, Rejection>)
      requires Valid()
      modifies db
      ensures Valid()
      ensures exists poll :: (
        && IsLookup(old(db.polls), roomId, code, poll)
        && r == VoteDecision(poll, choice, old(db.choices))
        && (r.Success? ==> db.votes == Retained(old(db.votes), poll.id, sender) + [VoteRow(old(db.nextVoteId), poll.id, r.value, sender)]))
      ensures r.Failure? ==> db.votes == old(db.votes)
      ensures db.polls == old(db.polls) && db.choices == old(db.choices)
      ensures db.nextPollId == old(db.nextPollId) && db.nextChoiceId == old(db.nextChoiceId)
      ensures db.nextVoteId == old(db.nextVoteId) + (if r.Success? then 1 else 0)
    {
      var poll := db.GetPoll(roomId, code);
      if poll.Exists() {
        if !poll.stillOpen {
          return Failure(PollClosed);
        }
        var choices := db.GetPollChoicesIds(poll.id);
        match ParseInt(choice) {
          case None =>
            r := Failure(InvalidOption);
          case Some(n) =>
            if n in choices {
              var choiceId := choices[n];
              db.SetVote(poll.id, choiceId, sender);
              r := Success(choiceId);
            } else {
              r := Failure(NoSuchOption);
            }
        }
      } else {
        r := Failure(PollMissing);
      }
    }

    /** poll_result: look the poll up, check the sender, and tally it. */
    method PollResult(roomId: string, code: string, sender: string) returns (r: Result<ResultView, Rejection>)
      ensures exists poll :: IsLookup(db.polls, roomId, code, poll) && r == ResultDecision(poll, sender, db.choices, db.votes)
    {
      var poll := db.GetPoll(roomId, code);
      if !poll.Exists() {
        return Failure(PollMissing);
      }
      if !SameUser(poll.creator, sender) {
        return Failure(NotCreator);
      }
      var data := SortChoices(poll.id);
      match data {
        case Failure(id) =>
          r := Failure(UnknownChoice(id));
        case Success(t) =>
          r := Success(ResultView(poll.question, Status(poll), t.totalVotes, t.choices, Shares(t.choices, t.totalVotes)));
      }
    }

    /** ping_poll: look the poll up, check the sender, find the option, and list its voters. */
    method PingPoll(roomId: string, code: string, sender: string, option: string) returns (r: Result<string, Rejection>)
      ensures exists poll :: IsLookup(db.polls, roomId, code, poll) && r == PingDecision(poll, sender, option, db.choices, db.votes)
    {
      var poll := db.GetPoll(roomId, code);
      if !poll.Exists() {
        return Failure(PollMissing);
      }
      if !SameUser(poll.creator, sender) {
        return Failure(NotCreator);
      }
      var opt: int;
      match ParseInt(option) {
        case None =>
          return Failure(InvalidOption);
        case Some(n) =>
          opt := n;
      }
      var data := SortChoices(poll.id);
      if data.Failure? {
        return Failure(UnknownChoice(data.error));
      }
      var choices := data.value.choices;
      var i := FindNumber(choices, opt);
      if i < |choices| {
        var msg := PingMessage(opt, choices[i]);
        return Success(RemoveSuffix(msg, ", "));
      }
      r := Failure(InvalidOption);
    }
  }
}
