/** The sender process: a loop that numbers messages. The environment of each round
    (what select reported, which commands came in) is given as a sequence. */
module Servers {
  import opened Messages

  /** What a round of the loop meets. */
  datatype Poll = Poll(nready: int, readyRecv: bool, received: bool, cmd: int, hasClient: bool, readySend: bool)

  /** The first n rounds that get as far as sending. */
  ghost function SendRounds(polls: seq<Poll>, n: nat): set<nat>
    requires n <= |polls|
  {
    set r | 0 <= r < n && polls[r].nready != -1 && polls[r].hasClient && polls[r].readySend
  }

  lemma NextRound(polls: seq<Poll>, n: nat)
    requires n < |polls|
    ensures var sends := polls[n].nready != -1 && polls[n].hasClient && polls[n].readySend;
            |SendRounds(polls, n + 1)| == |SendRounds(polls, n)| + if sends then 1 else 0
  {
    if polls[n].nready != -1 && polls[n].hasClient && polls[n].readySend {
      assert SendRounds(polls, n + 1) == SendRounds(polls, n) + {n};
    } else {
      assert SendRounds(polls, n + 1) == SendRounds(polls, n);
    }
  }

  function NextCount(count: uint64): uint64 {
    (count + 1) % TWO_TO_THE_64
  }

  /** The loop of the server: it tries to send once in every round that has no error, a client and a
      socket ready to send. The i-th message it tries to send is the one numbered i, modulo the width of
      the counter, whether or not the socket accepts it. The command kept is the last one received. */
  method Start(polls: seq<Poll>) returns (attempted: seq<MessageFormat>, sendMsgCount: uint64, clientCmdId: int)
    ensures |attempted| == |set r | 0 <= r < |polls| && polls[r].nready != -1 && polls[r].hasClient && polls[r].readySend|
    ensures sendMsgCount == |attempted| % 0x1_0000_0000_0000_0000
    ensures forall i | 0 <= i < |attempted| ::
              var n := i % 0x1_0000_0000_0000_0000; attempted[i] == MessageFormat(0, 0, n % 20, n)
    ensures (forall r | 0 <= r < |polls| :: !(polls[r].nready != -1 && polls[r].readyRecv && polls[r].received)) ==>
              clientCmdId == -1
    ensures forall r | 0 <= r < |polls| && polls[r].nready != -1 && polls[r].readyRecv && polls[r].received ::
              (forall q | r < q < |polls| :: !(polls[q].nready != -1 && polls[q].readyRecv && polls[q].received)) ==>
                clientCmdId == polls[r].cmd
  {
    attempted, sendMsgCount, clientCmdId := [], 0, -1;
    for n := 0 to |polls|
      invariant |attempted| == |SendRounds(polls, n)| && sendMsgCount == |attempted| % TWO_TO_THE_64
      invariant forall i | 0 <= i < |attempted| :: attempted[i] == MakeMessageDiv20(i % TWO_TO_THE_64)
      invariant (forall r | 0 <= r < n :: !(polls[r].nready != -1 && polls[r].readyRecv && polls[r].received)) ==>
                  clientCmdId == -1
      invariant forall r | 0 <= r < n && polls[r].nready != -1 && polls[r].readyRecv && polls[r].received ::
                  (forall q | r < q < n :: !(polls[q].nready != -1 && polls[q].readyRecv && polls[q].received)) ==>
                    clientCmdId == polls[r].cmd
    {
      var poll := polls[n];
      NextRound(polls, n);
      if poll.nready == -1 {
        continue;
      }
      if poll.readyRecv {
        if poll.received {
          clientCmdId := poll.cmd;
        }
      }
      if poll.hasClient && poll.readySend {
        attempted := attempted + [MakeMessageDiv20(sendMsgCount)];
        sendMsgCount := NextCount(sendMsgCount);
      }
    }
    assert SendRounds(polls, |polls|)
        == set r | 0 <= r < |polls| && polls[r].nready != -1 && polls[r].hasClient && polls[r].readySend;
  }
}
