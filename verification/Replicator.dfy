/** The leader's view of one follower: what is in flight and which indexes it has acknowledged. */
module Replicators {
  import opened Core
  import opened AckWindows

  ghost predicate IsCallAt(rpcs: seq<FlyingRpc>, callId: nat, pos: int) {
    0 <= pos < |rpcs| && rpcs[pos].callId == callId
  }

  ghost predicate HasCall(rpcs: seq<FlyingRpc>, callId: nat) {
    exists pos :: IsCallAt(rpcs, callId, pos)
  }

  class Replicator {
    const maxEntriesSize: nat
    const maxParallelRpcNum: nat
    var nextIndex: int
    var ooStartIndex: int
    var ooCommittedEntries: seq<bool>
    var flyingAppendEntriesSize: int
    var appendEntriesInFly: seq<FlyingRpc>
    var statusAppendEntriesInFly: seq<bool>
    ghost var given: set<int>

    ghost predicate Valid()
      reads this
    {
      ReplicatorInv(nextIndex, ooStartIndex, ooCommittedEntries, flyingAppendEntriesSize, appendEntriesInFly,
                    statusAppendEntriesInFly, given)
    }

    constructor (lastLogIndex: nat, maxEntriesSize: nat, maxParallelRpcNum: nat)
      ensures this.maxEntriesSize == maxEntriesSize && this.maxParallelRpcNum == maxParallelRpcNum
      ensures Valid() && flyingAppendEntriesSize == 0 && given == {} && appendEntriesInFly == []
      ensures nextIndex == lastLogIndex + 1 && ooStartIndex == 1 && ooCommittedEntries == []
    {
      this.maxEntriesSize, this.maxParallelRpcNum := maxEntriesSize, maxParallelRpcNum;
      nextIndex, ooStartIndex, ooCommittedEntries := lastLogIndex + 1, 1, [];
      flyingAppendEntriesSize, appendEntriesInFly, statusAppendEntriesInFly := 0, [], [];
      given := {};
    }

    method SendEmptyEntries(callId: nat)
      requires Valid() && appendEntriesInFly == []
      modifies this
      ensures Valid() && given == old(given) && nextIndex == old(nextIndex)
      ensures ooStartIndex == old(ooStartIndex) && ooCommittedEntries == old(ooCommittedEntries)
      ensures appendEntriesInFly == [FlyingRpc(nextIndex, 0, callId)]
      ensures flyingAppendEntriesSize == old(flyingAppendEntriesSize)
    {
      FlightAfterSend(appendEntriesInFly, statusAppendEntriesInFly, flyingAppendEntriesSize, nextIndex,
                      ooStartIndex + |ooCommittedEntries|, FlyingRpc(nextIndex, 0,
                                                                     callId), ooStartIndex + |ooCommittedEntries|);
      appendEntriesInFly := appendEntriesInFly + [FlyingRpc(nextIndex, 0, callId)];
      statusAppendEntriesInFly := statusAppendEntriesInFly + [true];
    }

    /** Sends `prepared` entries from the next index, unless blocked, saturated or without anything to send. */
    method SendEntries(prepared: nat, callId: nat, blocking: bool) returns (sent: bool)
      requires Valid() && forall k :: 0 <= k < |appendEntriesInFly| ==> appendEntriesInFly[k].callId != callId
      modifies this
      ensures Valid() && given == old(given)
      ensures sent <==> prepared > 0 && !blocking && old(flyingAppendEntriesSize) < maxEntriesSize &&
                        |old(appendEntriesInFly)| < maxEntriesSize && |old(appendEntriesInFly)| < maxParallelRpcNum
      ensures nextIndex == old(nextIndex) + if sent then prepared else 0
      ensures appendEntriesInFly ==
              old(appendEntriesInFly) + if sent then [FlyingRpc(old(nextIndex), prepared, callId)] else []
      ensures ooStartIndex == old(ooStartIndex)
      ensures ooStartIndex + |ooCommittedEntries| ==
              if sent && old(ooStartIndex + |ooCommittedEntries|) < nextIndex then nextIndex
              else old(ooStartIndex + |ooCommittedEntries|)
    {
      if flyingAppendEntriesSize >= maxEntriesSize || |statusAppendEntriesInFly| >= maxEntriesSize ||
         |appendEntriesInFly| >= maxParallelRpcNum || blocking || prepared == 0
      {
        return false;
      }
      var rpc := FlyingRpc(nextIndex, prepared, callId);
      var flags := Widen(ooStartIndex, ooCommittedEntries, nextIndex + prepared, given);
      FlightAfterSend(appendEntriesInFly, statusAppendEntriesInFly, flyingAppendEntriesSize, nextIndex,
                      ooStartIndex + |ooCommittedEntries|, rpc, ooStartIndex + |flags|);
      appendEntriesInFly, statusAppendEntriesInFly := appendEntriesInFly + [rpc], statusAppendEntriesInFly + [true];
      nextIndex, flyingAppendEntriesSize := nextIndex + prepared, flyingAppendEntriesSize + prepared;
      ooCommittedEntries := flags;
      return true;
    }

    /** Forgets everything in flight; sending resumes at the oldest request that is still waited for. */
    method ResetNextIndex()
      requires WindowInv(ooStartIndex, ooCommittedEntries, given)
      requires FlightInv(appendEntriesInFly, statusAppendEntriesInFly, flyingAppendEntriesSize, nextIndex,
                         ooStartIndex + |ooCommittedEntries|)
      modifies this
      ensures Valid() && given == old(given)
      ensures appendEntriesInFly == [] && flyingAppendEntriesSize == 0
      ensures IsResetTo(old(appendEntriesInFly), old(statusAppendEntriesInFly), old(nextIndex), nextIndex)
      ensures ooStartIndex == old(ooStartIndex) && ooCommittedEntries == old(ooCommittedEntries)
    {
      nextIndex := ResumeAt(appendEntriesInFly, statusAppendEntriesInFly, nextIndex);
      flyingAppendEntriesSize := 0;
      appendEntriesInFly, statusAppendEntriesInFly := [], [];
    }

    /**
     * Handles the reply to the call `callId`, whose request held `n` entries after index `prev`. On success the
     * acknowledged indexes are returned for commit_at: ascending, never given before, each inside the request or
     * below the follower's reported contiguous index. `inRange` tells that the deque of flags was looked at within its
     * bounds, which it is unless the follower reports more than was ever sent; otherwise nothing is promised.
     */
    method OnRpcReturned(callId: nat, prev: int, n: nat, reply: Reply, nextCallId: nat)
      returns (acked: Option<seq<int>>, inRange: bool)
      requires Valid()
      requires forall k :: 0 <= k < |appendEntriesInFly| && appendEntriesInFly[k].callId == callId ==>
                 appendEntriesInFly[k].logIndex == prev + 1 && appendEntriesInFly[k].entriesSize == n
      requires reply.Rejected? ==> reply.lastLogIndex >= 0
      modifies this
      ensures !inRange <==> reply.Accepted? && n > 0 && HasCall(old(appendEntriesInFly), callId) &&
                            reply.lastLogIndex > old(ooStartIndex + |ooCommittedEntries|)
      ensures inRange ==> Valid()
      ensures acked.Some? <==> inRange && reply.Accepted? && n > 0 && HasCall(old(appendEntriesInFly), callId)
      ensures acked.Some? ==> StrictlyAscending(acked.value)
      ensures acked.Some? ==> forall i :: i in acked.value <==>
                i !in old(given) && (1 <= i < reply.lastLogIndex || prev < i <= prev + n)
      ensures given == old(given) + if acked.Some? then Elements(acked.value) else {}
      ensures inRange ==> ooStartIndex + |ooCommittedEntries| == old(ooStartIndex + |ooCommittedEntries|)
      ensures acked.Some? && ooCommittedEntries != [] ==> !ooCommittedEntries[0]
      ensures reply.Accepted? ==> nextIndex == old(nextIndex)
      ensures inRange && reply.Accepted? ==> forall pos :: IsCallAt(old(appendEntriesInFly), callId, pos) ==>
                LeftInFlight(Others(old(appendEntriesInFly), pos), appendEntriesInFly, ooStartIndex)
      ensures !reply.Accepted? ==> forall pos :: IsCallAt(old(appendEntriesInFly), callId, pos) ==>
                && nextIndex == AfterRefusal(reply, ResetBase(old(appendEntriesInFly), pos, old(nextIndex)))
                && appendEntriesInFly == if Probes(reply) then [FlyingRpc(nextIndex, 0, nextCallId)] else []
      ensures !HasCall(old(appendEntriesInFly), callId) ==>
                nextIndex == old(nextIndex) && appendEntriesInFly == old(appendEntriesInFly)
    {
      var pos := FindRpc(appendEntriesInFly, statusAppendEntriesInFly, callId, prev + 1);
      assert pos < |appendEntriesInFly| ==> IsCallAt(appendEntriesInFly, callId, pos);
      if pos == |appendEntriesInFly| {
        return None, true;
      }
      if !reply.Accepted? {
        Refused(pos, reply, nextCallId);
        return None, true;
      }
      acked, inRange := Answered(pos, prev, n, reply.lastLogIndex);
    }

    /** The success path, for the request at position `pos`. */
    method Answered(pos: nat, prev: int, n: nat, lastLogIndex: int) returns (acked: Option<seq<int>>, inRange: bool)
      requires Valid() && pos < |appendEntriesInFly|
      requires appendEntriesInFly[pos].logIndex == prev + 1 && appendEntriesInFly[pos].entriesSize == n
      modifies this
      ensures inRange <==> n == 0 || lastLogIndex <= old(ooStartIndex + |ooCommittedEntries|)
      ensures inRange ==>
                && Valid()
                && ooStartIndex + |ooCommittedEntries| == old(ooStartIndex + |ooCommittedEntries|)
                && LeftInFlight(Others(old(appendEntriesInFly), pos), appendEntriesInFly, ooStartIndex)
      ensures acked.Some? <==> inRange && n > 0
      ensures acked.Some? ==>
                && StrictlyAscending(acked.value)
                && forall i :: i in acked.value <==> i !in old(given) && (1 <= i < lastLogIndex || prev < i <= prev + n)
      ensures given == old(given) + if acked.Some? then Elements(acked.value) else {}
      ensures acked.Some? && ooCommittedEntries != [] ==> !ooCommittedEntries[0]
      ensures nextIndex == old(nextIndex)
    {
      ghost var given';
      ooStartIndex, ooCommittedEntries, appendEntriesInFly, statusAppendEntriesInFly, flyingAppendEntriesSize,
      acked, given', inRange :=
        TakeAnswer(ooStartIndex, ooCommittedEntries, appendEntriesInFly, statusAppendEntriesInFly,
                   flyingAppendEntriesSize, nextIndex, pos, prev, n, lastLogIndex, given);
      if inRange {
        given := given';
      }
    }

    /** Every unsuccessful reply forgets what is in flight; a refusal also moves the next index and probes again. */
    method Refused(pos: nat, reply: Reply, nextCallId: nat)
      requires Valid() && pos < |appendEntriesInFly|
      requires !reply.Accepted? && (reply.Rejected? ==> reply.lastLogIndex >= 0)
      modifies this
      ensures Valid() && given == old(given)
      ensures ooStartIndex == old(ooStartIndex) && ooCommittedEntries == old(ooCommittedEntries)
      ensures nextIndex == AfterRefusal(reply, ResetBase(old(appendEntriesInFly), pos, old(nextIndex)))
      ensures appendEntriesInFly == if Probes(reply) then [FlyingRpc(nextIndex, 0, nextCallId)] else []
    {
      ghost var rpcs, status, next := appendEntriesInFly, statusAppendEntriesInFly, nextIndex;
      statusAppendEntriesInFly := statusAppendEntriesInFly[pos := false];
      ResetNextIndex();
      ResetAfterClearing(rpcs, status, next, nextIndex, pos);
      if reply.Rejected? && !reply.higherTerm {
        if reply.lastLogIndex + 1 < nextIndex {
          nextIndex := reply.lastLogIndex + 1;
        } else if nextIndex > 1 {
          nextIndex := nextIndex - 1;
        }
        SendEmptyEntries(nextCallId);
      }
    }
  }

  /** A leader whose only request in flight fails does not go back for its entry. */
  method LoseOnlyRequest(lastLogIndex: nat) returns (r: Replicator)
    ensures fresh(r) && r.Valid()
    ensures r.nextIndex == lastLogIndex + 2 && r.appendEntriesInFly == [] && lastLogIndex + 1 !in r.given
  {
    r := new Replicator(lastLogIndex, 1024, 1024);
    var sent := r.SendEntries(1, 7, false);
    assert IsCallAt(r.appendEntriesInFly, 7, 0);
    var acked, inRange := r.OnRpcReturned(7, lastLogIndex, 1, Failed, 8);
  }

  /** A follower whose log is longer than what was ever sent to it makes the leader look into an empty deque. */
  method MeetLongerLog(lastLogIndex: nat, reported: int) returns (inRange: bool)
    ensures inRange <==> reported <= lastLogIndex + 2
  {
    var r := new Replicator(lastLogIndex, 1024, 1024);
    var sent := r.SendEntries(1, 7, false);
    assert IsCallAt(r.appendEntriesInFly, 7, 0);
    var acked;
    acked, inRange := r.OnRpcReturned(7, lastLogIndex, 1, Accepted(reported), 8);
  }
}
