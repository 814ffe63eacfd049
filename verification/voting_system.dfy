/** The voting component's handlers. The component holds both tables as
    fetched, and each handler issues its mutation requests one after another.
    The store's answer to each request (accepted or failed) is a parameter,
    and so is the session: `None` when nobody is logged in. */
module VotingComponent {
  import opened Rows
  import opened Store
  import opened Tally
  import opened Upsert

  datatype Table = VotingTable | SliderVotesTable

  /** A mutation request sent to the store. */
  datatype Request = Request(table: Table, call: Call)

  /** What the handler's toast reports. */
  datatype Outcome = NotLoggedIn | Succeeded | Failed

  /** The requests for a run of calls on one table, in order. */
  function On(table: Table, calls: seq<Call>): seq<Request> {
    if |calls| == 0 then [] else [Request(table, calls[0])] + On(table, calls[1..])
  }

  class VotingSystem {
    /** The `voting` table. */
    var votes: seq<Row>
    /** The `slider_votes` table. */
    var sliderVotes: seq<Row>
    /** The id the store gives the next inserted vote and slider vote. */
    var nextVoteId: Id
    var nextSliderVoteId: Id
    /** Every mutation request the handlers have sent, oldest first. */
    var issued: seq<Request>

    ghost predicate Valid()
      reads this
    {
      TableInvariant(votes, nextVoteId) && TableInvariant(sliderVotes, nextSliderVoteId)
    }

    constructor (votes0: seq<Row>, sliderVotes0: seq<Row>, nextVoteId0: Id, nextSliderVoteId0: Id)
      requires TableInvariant(votes0, nextVoteId0)
      requires TableInvariant(sliderVotes0, nextSliderVoteId0)
      ensures Valid()
      ensures votes == votes0 && sliderVotes == sliderVotes0
      ensures nextVoteId == nextVoteId0 && nextSliderVoteId == nextSliderVoteId0
      ensures issued == []
    {
      votes, sliderVotes := votes0, sliderVotes0;
      nextVoteId, nextSliderVoteId := nextVoteId0, nextSliderVoteId0;
      issued := [];
    }

    /** `handleVote`: without a session nothing is sent and nothing changes.
        Otherwise one request is sent: an update of the user's row for the
        task if there is one, an insert otherwise; the table changes only if
        the store accepts it, and the slider votes never change. */
    method HandleVote(session: Option<UserId>, taskId: TaskId, voteValue: int, accepted: bool)
      returns (outcome: Outcome)
      requires Valid()
      requires voteValue == 1 || voteValue == -1
      modifies this
      ensures Valid()
      ensures sliderVotes == old(sliderVotes) && nextSliderVoteId == old(nextSliderVoteId)
      ensures session.None? ==>
        outcome == NotLoggedIn && issued == old(issued) &&
        votes == old(votes) && nextVoteId == old(nextVoteId)
      ensures session.Some? ==>
        var call := CastCall(old(votes), session.value, taskId, voteValue);
        issued == old(issued) + [Request(VotingTable, call)] &&
        outcome == (if accepted then Succeeded else Failed) &&
        votes == (if accepted then Apply(old(votes), old(nextVoteId), call) else old(votes)) &&
        nextVoteId == (if accepted then NextId(old(nextVoteId), call) else old(nextVoteId))
      ensures session.Some? && accepted ==> Current(votes, session.value, taskId) == voteValue
      ensures old(OnePerUserTask(votes)) ==> OnePerUserTask(votes)
    {
      if session.None? {
        outcome := NotLoggedIn;
        return;
      }
      var user := session.value;
      var call := CastCall(votes, user, taskId, voteValue);
      issued := issued + [Request(VotingTable, call)];
      if accepted {
        ghost var before, beforeId := votes, nextVoteId;
        votes, nextVoteId := Apply(votes, nextVoteId, call), NextId(nextVoteId, call);
        ApplyKeepsTableInvariant(before, beforeId, call);
        CastStoresValue(before, beforeId, user, taskId, voteValue);
        outcome := Succeeded;
      } else {
        outcome := Failed;
      }
    }

    /** `handleSliderVote`: the same upsert on the slider votes with the
        rating the slider gives (1 to 5); the votes never change. */
    method HandleSliderVote(session: Option<UserId>, taskId: TaskId, rating: int, accepted: bool)
      returns (outcome: Outcome)
      requires Valid()
      requires 1 <= rating <= 5
      modifies this
      ensures Valid()
      ensures votes == old(votes) && nextVoteId == old(nextVoteId)
      ensures session.None? ==>
        outcome == NotLoggedIn && issued == old(issued) &&
        sliderVotes == old(sliderVotes) && nextSliderVoteId == old(nextSliderVoteId)
      ensures session.Some? ==>
        var call := CastCall(old(sliderVotes), session.value, taskId, rating);
        issued == old(issued) + [Request(SliderVotesTable, call)] &&
        outcome == (if accepted then Succeeded else Failed) &&
        sliderVotes == (if accepted then Apply(old(sliderVotes), old(nextSliderVoteId), call) else old(sliderVotes)) &&
        nextSliderVoteId == (if accepted then NextId(old(nextSliderVoteId), call) else old(nextSliderVoteId))
      ensures session.Some? && accepted ==> Current(sliderVotes, session.value, taskId) == rating
      ensures old(OnePerUserTask(sliderVotes)) ==> OnePerUserTask(sliderVotes)
      ensures old(RatingsInRange(sliderVotes)) ==> RatingsInRange(sliderVotes)
    {
      if session.None? {
        outcome := NotLoggedIn;
        return;
      }
      var user := session.value;
      var call := CastCall(sliderVotes, user, taskId, rating);
      issued := issued + [Request(SliderVotesTable, call)];
      if accepted {
        ghost var before, beforeId := sliderVotes, nextSliderVoteId;
        sliderVotes, nextSliderVoteId := Apply(sliderVotes, nextSliderVoteId, call), NextId(nextSliderVoteId, call);
        ApplyKeepsTableInvariant(before, beforeId, call);
        CastStoresValue(before, beforeId, user, taskId, rating);
        CastKeepsRatingsInRange(before, beforeId, user, taskId, rating);
        outcome := Succeeded;
      } else {
        outcome := Failed;
      }
    }

    /** `handleRetractVote`: without a session nothing is sent and nothing
        changes. Otherwise the user's vote row is deleted and then the user's
        slider row, each only if present; a failed vote deletion stops the
        handler before the slider row is touched. */
    method HandleRetractVote(session: Option<UserId>, taskId: TaskId,
                             voteDeleteAccepted: bool, sliderDeleteAccepted: bool)
      returns (outcome: Outcome)
      requires Valid()
      modifies this
      ensures Valid()
      ensures nextVoteId == old(nextVoteId) && nextSliderVoteId == old(nextSliderVoteId)
      ensures session.None? ==>
        outcome == NotLoggedIn && issued == old(issued) &&
        votes == old(votes) && sliderVotes == old(sliderVotes)
      ensures session.Some? ==>
        var user := session.value;
        var voteStepDone := Find(old(votes), user, taskId).None? || voteDeleteAccepted;
        var sliderStepDone := Find(old(sliderVotes), user, taskId).None? || sliderDeleteAccepted;
        votes == (if voteDeleteAccepted then Retracted(old(votes), user, taskId) else old(votes)) &&
        sliderVotes == (if voteStepDone && sliderDeleteAccepted
                        then Retracted(old(sliderVotes), user, taskId) else old(sliderVotes)) &&
        issued == old(issued) + On(VotingTable, RetractCalls(old(votes), user, taskId))
                  + (if voteStepDone then On(SliderVotesTable, RetractCalls(old(sliderVotes), user, taskId)) else []) &&
        outcome == (if voteStepDone && sliderStepDone then Succeeded else Failed)
      ensures old(OnePerUserTask(votes)) ==> OnePerUserTask(votes)
      ensures old(OnePerUserTask(sliderVotes)) ==> OnePerUserTask(sliderVotes)
      ensures session.Some? && outcome == Succeeded && old(OnePerUserTask(votes)) ==>
        Find(votes, session.value, taskId).None?
      ensures session.Some? && outcome == Succeeded && old(OnePerUserTask(sliderVotes)) ==>
        Find(sliderVotes, session.value, taskId).None?
    {
      if session.None? {
        outcome := NotLoggedIn;
        return;
      }
      var voteStepDone := RetractOwnVote(session.value, taskId, voteDeleteAccepted);
      if !voteStepDone {
        outcome := Failed;
        return;
      }
      var sliderStepDone := RetractOwnSliderVote(session.value, taskId, sliderDeleteAccepted);
      outcome := if sliderStepDone then Succeeded else Failed;
    }

    /** The first step of `handleRetractVote`: if the user has a vote row for
        the task, request its deletion by id; `done` is false when the store
        refused it. */
    method RetractOwnVote(user: UserId, taskId: TaskId, accepted: bool) returns (done: bool)
      requires Valid()
      modifies this
      ensures Valid()
      ensures sliderVotes == old(sliderVotes)
      ensures nextVoteId == old(nextVoteId) && nextSliderVoteId == old(nextSliderVoteId)
      ensures done == (Find(old(votes), user, taskId).None? || accepted)
      ensures votes == (if accepted then Retracted(old(votes), user, taskId) else old(votes))
      ensures issued == old(issued) + On(VotingTable, RetractCalls(old(votes), user, taskId))
      ensures old(OnePerUserTask(votes)) ==> OnePerUserTask(votes)
      ensures done && old(OnePerUserTask(votes)) ==> Find(votes, user, taskId).None?
    {
      ghost var before := votes;
      RetractKeepsTableInvariant(votes, nextVoteId, user, taskId);
      var existing := Find(votes, user, taskId);
      done := true;
      if existing.Some? {
        var id := votes[existing.value].id;
        issued := issued + [Request(VotingTable, Delete(id))];
        if accepted {
          votes := DeleteById(votes, id);
        } else {
          done := false;
        }
      }
      RetractLeavesNoRow(before, user, taskId);
    }

    /** The second step of `handleRetractVote`: the same for the user's
        slider row. */
    method RetractOwnSliderVote(user: UserId, taskId: TaskId, accepted: bool) returns (done: bool)
      requires Valid()
      modifies this
      ensures Valid()
      ensures votes == old(votes)
      ensures nextVoteId == old(nextVoteId) && nextSliderVoteId == old(nextSliderVoteId)
      ensures done == (Find(old(sliderVotes), user, taskId).None? || accepted)
      ensures sliderVotes == (if accepted then Retracted(old(sliderVotes), user, taskId) else old(sliderVotes))
      ensures issued == old(issued) + On(SliderVotesTable, RetractCalls(old(sliderVotes), user, taskId))
      ensures old(OnePerUserTask(sliderVotes)) ==> OnePerUserTask(sliderVotes)
      ensures done && old(OnePerUserTask(sliderVotes)) ==> Find(sliderVotes, user, taskId).None?
    {
      ghost var before := sliderVotes;
      RetractKeepsTableInvariant(sliderVotes, nextSliderVoteId, user, taskId);
      var existing := Find(sliderVotes, user, taskId);
      done := true;
      if existing.Some? {
        var id := sliderVotes[existing.value].id;
        issued := issued + [Request(SliderVotesTable, Delete(id))];
        if accepted {
          sliderVotes := DeleteById(sliderVotes, id);
        } else {
          done := false;
        }
      }
      RetractLeavesNoRow(before, user, taskId);
    }
  }
}
