/**
 A mailbox as a value: which pool slots are free, what messages they hold, and the two queues
 of slots, received and ignored (kernel/message.c).
 */
module Mail {
  import opened Rings

  const MAX_MESSAGE_POOL := 128
  const ANY := -1
  const MSG_HARD_INTR := -128

  datatype Option<T> = None | Some(value: T)

  datatype Message = Message(src: int, dest: int, kind: int, payload: seq<int>)

  datatype Box = Box(free: seq<bool>, msgs: seq<Message>, rec: seq<nat>, ign: seq<nat>)

  predicate Matches(want: int, m: Message) {
    want == ANY || want == m.src
  }

  /** A queue of distinct slots of the pool. */
  ghost predicate Queue(ix: seq<nat>) {
    && (forall k :: 0 <= k < |ix| ==> ix[k] < MAX_MESSAGE_POOL)
    && (forall k, l :: 0 <= k < l < |ix| ==> ix[k] != ix[l])
  }

  /** Received and ignored slots are distinct and taken. */
  ghost predicate WellFormed(b: Box) {
    && |b.free| == |b.msgs| == MAX_MESSAGE_POOL
    && Queue(b.rec + b.ign)
    && forall k :: k in b.rec + b.ign ==> !b.free[k]
  }

  /** Find_Empty_Message: the first slot whose flag is TRUE. */
  function FirstFree(free: seq<bool>, from: nat): (r: Option<nat>)
    requires from <= |free|
    ensures r.Some? ==> from <= r.value < |free| && free[r.value] && forall k :: from <= k < r.value ==> !free[k]
    ensures r.None? ==> forall k :: from <= k < |free| ==> !free[k]
    decreases |free| - from
  {
    if from == |free| then None else if free[from] then Some(from) else FirstFree(free, from + 1)
  }

  /** The first slot of the queue whose message is wanted. */
  function FirstMatch(b: Box, ix: seq<nat>, want: int, from: nat): (r: Option<nat>)
    requires from <= |ix| && |b.msgs| == MAX_MESSAGE_POOL && forall k :: 0 <= k < |ix| ==> ix[k] < MAX_MESSAGE_POOL
    ensures r.Some? ==> from <= r.value < |ix| && Matches(want, b.msgs[ix[r.value]])
                        && forall k :: from <= k < r.value ==> !Matches(want, b.msgs[ix[k]])
    ensures r.None? ==> forall k :: from <= k < |ix| ==> !Matches(want, b.msgs[ix[k]])
    decreases |ix| - from
  {
    if from == |ix| then None
    else if Matches(want, b.msgs[ix[from]]) then Some(from)
    else FirstMatch(b, ix, want, from + 1)
  }

  /** The locked part of send, into free slot k. */
  function Post(b: Box, k: nat, m: Message): Box
    requires k < |b.free| == |b.msgs|
  {
    b.(free := b.free[k := false], msgs := b.msgs[k := m], rec := b.rec + [k])
  }

  /** A wanted message found among the ignored ones leaves their queue. */
  function TakeIgnored(b: Box, i: nat): Box
    requires i < |b.ign|
  {
    b.(ign := Without(b.ign, i))
  }

  /** The oldest received message leaves its queue. */
  function TakeReceived(b: Box): Box
    requires b.rec != []
  {
    b.(rec := b.rec[1..])
  }

  /** An unwanted message goes to the end of the ignored ones. */
  function Divert(b: Box): Box
    requires b.rec != []
  {
    b.(rec := b.rec[1..], ign := b.ign + [b.rec[0]])
  }

  function Release(b: Box, k: nat): Box
    requires k < |b.free|
  {
    b.(free := b.free[k := true])
  }
}
