/**
 * The community poll widget: the vote percentages it shows, and the
 * one-vote-per-session state machine around the vote request. The network
 * is replaced by the outcome of each request, passed in: the server's poll
 * data on success, None on failure.
 */
module Polls {
  import opened Wrappers
  import opened Numbers

  /** The poll as the server sends it. */
  datatype PollData = PollData(question: string, options: seq<string>, votes: seq<int>, totalVotes: int)

  /**
   * An option's percentage: 0 when there are no votes, otherwise
   * Math.round(votes / total * 100), the nearest integer with halves rounded
   * up.
   */
  function Percentage(votes: int, total: int): (p: int)
    ensures total <= 0 ==> p == 0
    ensures total > 0 ==> 2 * p * total - total <= 200 * votes < 2 * p * total + total
  {
    if total > 0 then RoundFacts(votes, total); ((votes as real / total as real) * 100.0 + 0.5).Floor
    else 0
  }

  /** Math.round of 100 v / t, written with integers. */
  lemma RoundFacts(v: int, t: int)
    requires t > 0
    ensures var p := ((v as real / t as real) * 100.0 + 0.5).Floor;
      2 * p * t - t <= 200 * v < 2 * p * t + t
  {
    var x := (v as real / t as real) * 100.0 + 0.5;
    assert x == (200 * v + t) as real / (2 * t) as real;
    FloorOfQuotient(200 * v + t, 2 * t);
    var q := (200 * v + t) / (2 * t);
    assert 200 * v + t == q * (2 * t) + (200 * v + t) % (2 * t);
  }

  /** Multiplying by a positive number keeps a strict order. */
  lemma CancelPositive(a: int, b: int, t: int)
    requires t > 0 && a * t < b * t
    ensures a < b
  {
  }

  /** A share of the total shows as a percentage between 0 and 100; none of the votes as 0, all of them as 100. */
  lemma PercentageBounds(votes: int, total: int)
    requires 0 <= votes <= total
    ensures 0 <= Percentage(votes, total) <= 100
    ensures total > 0 && votes == total ==> Percentage(votes, total) == 100
    ensures votes == 0 ==> Percentage(votes, total) == 0
  {
    var p := Percentage(votes, total);
    if total > 0 {
      assert (2 * p - 1) * total <= 200 * votes;
      assert 200 * votes < (2 * p + 1) * total;
      CancelPositive(2 * p - 1, 201, total);
      CancelPositive(0, 2 * p + 1, total);
      if votes == total {
        CancelPositive(199, 2 * p, total);
      }
      if votes == 0 {
        CancelPositive(2 * p - 1, 1, total);
      }
    }
  }

  /** What one option button shows. */
  datatype OptionButton = OptionButton(text: string, highlighted: bool, disabled: bool,
                                       percentage: Option<int>, showsPercentage: bool)

  /**
   * The option buttons: the chosen option is highlighted, every button is
   * disabled and every percentage shown once a vote is recorded. An option
   * with no vote count has no number (JavaScript renders NaN).
   */
  function OptionButtons(data: PollData, votedIndex: Option<nat>): (buttons: seq<OptionButton>)
    ensures |buttons| == |data.options|
    ensures forall i :: 0 <= i < |buttons| ==>
      && buttons[i].text == data.options[i]
      && (buttons[i].highlighted <==> votedIndex == Some(i))
      && (buttons[i].disabled <==> votedIndex.Some?)
      && (buttons[i].showsPercentage <==> votedIndex.Some?)
      && (i < |data.votes| ==> buttons[i].percentage == Some(Percentage(data.votes[i], data.totalVotes)))
      && (i >= |data.votes| ==> buttons[i].percentage.None?)
  {
    seq(|data.options|, i requires 0 <= i < |data.options| =>
      OptionButton(data.options[i], votedIndex == Some(i), votedIndex.Some?,
                   if i < |data.votes| then Some(Percentage(data.votes[i], data.totalVotes)) else None,
                   votedIndex.Some?))
  }

  /** The widget's state. */
  class PollWidget {
    var data: Option<PollData>
    var loading: bool
    /** The option voted for in this session, if any. */
    var votedIndex: Option<nat>

    constructor ()
      ensures data.None? && loading && votedIndex.None?
    {
      data := None;
      loading := true;
      votedIndex := None;
    }

    /** fetchPoll's completion: the data on success, nothing on failure; loading ends either way. */
    method FinishFetch(outcome: Option<PollData>)
      modifies this
      ensures !loading && votedIndex == old(votedIndex)
      ensures data == if outcome.Some? then outcome else old(data)
    {
      if outcome.Some? {
        data := outcome;
      }
      loading := false;
    }

    /**
     * handleVote up to the request: ignored once a vote is recorded (no
     * request is sent); otherwise the vote is recorded before the request
     * goes out for that option.
     */
    method BeginVote(index: nat) returns (sent: bool)
      modifies this
      ensures sent <==> old(votedIndex).None?
      ensures sent ==> votedIndex == Some(index)
      ensures !sent ==> votedIndex == old(votedIndex)
      ensures data == old(data) && loading == old(loading)
    {
      if votedIndex.Some? {
        return false;
      }
      votedIndex := Some(index);
      sent := true;
    }

    /**
     * handleVote after the request: on success the poll shows the server's
     * data and the vote stays recorded; on failure the vote is withdrawn so
     * that voting is possible again.
     */
    method FinishVote(outcome: Option<PollData>)
      modifies this
      ensures outcome.Some? ==> data == outcome && votedIndex == old(votedIndex)
      ensures outcome.None? ==> data == old(data) && votedIndex.None?
      ensures loading == old(loading)
    {
      if outcome.Some? {
        data := outcome;
      } else {
        votedIndex := None;
      }
    }
  }

  /** A session in which every vote request succeeds sends exactly one request, whatever is clicked after. */
  method OneVotePerSession(widget: PollWidget, first: nat, second: nat, response: PollData)
    returns (sentFirst: bool, sentSecond: bool)
    requires widget.votedIndex.None?
    modifies widget
    ensures sentFirst && !sentSecond
    ensures widget.votedIndex == Some(first) && widget.data == Some(response)
  {
    sentFirst := widget.BeginVote(first);
    widget.FinishVote(Some(response));
    sentSecond := widget.BeginVote(second);
  }

  /** After a failed vote the widget accepts a new vote, for any option. */
  method RetryAfterFailure(widget: PollWidget, first: nat, second: nat) returns (sentAgain: bool)
    requires widget.votedIndex.None?
    modifies widget
    ensures sentAgain && widget.votedIndex == Some(second)
  {
    var sent := widget.BeginVote(first);
    widget.FinishVote(None);
    sentAgain := widget.BeginVote(second);
  }
}
