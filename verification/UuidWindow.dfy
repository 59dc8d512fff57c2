/** The session-ingress side of the bridge: two bounded windows of uuids, one of what was posted and
    one of what was received, drop echoes and duplicates. */
module UuidWindow {
  import opened Prelude

  /** Adding a known uuid changes nothing, its age included; a new one evicts the oldest when full. */
  function AddUuid(ring: seq<string>, capacity: nat, uuid: string): seq<string> {
    if uuid in ring then ring
    else (if |ring| >= capacity && |ring| > 0 then ring[1..] else ring) + [uuid]
  }

  class BoundedUuidSet {
    const capacity: nat
    var ring: seq<string>
    var members: set<string>

    ghost predicate Valid()
      reads this
    {
      && 1 <= capacity && |ring| <= capacity
      && (forall i, j :: 0 <= i < j < |ring| ==> ring[i] != ring[j])
      && members == set u | u in ring
    }

    constructor (capacity: nat)
      ensures Valid() && ring == [] && this.capacity == if capacity < 1 then 1 else capacity
    {
      this.capacity := if capacity < 1 then 1 else capacity;
      ring, members := [], {};
    }

    method Add(uuid: string)
      requires Valid()
      modifies this
      ensures Valid() && ring == AddUuid(old(ring), capacity, uuid)
    {
      if uuid in members {
        return;
      }
      if |ring| >= capacity {
        var evicted := ring[0];
        ring := ring[1..];
        members := members - {evicted};
      }
      members := members + {uuid};
      ring := ring + [uuid];
    }

    predicate Has(uuid: string)
      requires Valid()
      reads this
      ensures Has(uuid) <==> uuid in ring
    {
      uuid in members
    }
  }

  // ---------- what a window remembers ----------

  function Window(capacity: nat, uuids: seq<string>): seq<string> {
    if uuids == [] then [] else AddUuid(Window(capacity, uuids[..|uuids| - 1]), capacity, uuids[|uuids| - 1])
  }

  function LastOf(s: seq<string>, n: nat): seq<string> {
    if |s| <= n then s else s[|s| - n..]
  }

  /** The uuids that were new when they were added: none of the last `capacity` insertions before. */
  function Insertions(capacity: nat, uuids: seq<string>): seq<string> {
    if uuids == [] then []
    else
      var before, last := Insertions(capacity, uuids[..|uuids| - 1]), uuids[|uuids| - 1];
      if last in LastOf(before, capacity) then before else before + [last]
  }

  /** Any `capacity` + 1 neighbours are different. */
  ghost predicate Spaced(s: seq<string>, capacity: nat) {
    forall i, j :: 0 <= i < j < |s| && j - i <= capacity ==> s[i] != s[j]
  }

  lemma {:induction false} PushKeepsLast(s: seq<string>, capacity: nat, uuid: string)
    requires 1 <= capacity && uuid !in LastOf(s, capacity) && Spaced(s, capacity)
    ensures AddUuid(LastOf(s, capacity), capacity, uuid) == LastOf(s + [uuid], capacity)
    ensures Spaced(s + [uuid], capacity)
  {
    forall i | 0 <= i < |s| && |s| - i <= capacity
      ensures s[i] != uuid
    {
      assert s[i] == LastOf(s, capacity)[if |s| <= capacity then i else i - (|s| - capacity)];
    }
  }

  /** The window is first-in first-out over insertions: it holds the last `capacity` of them. */
  lemma {:induction false} WindowHoldsLastInsertions(capacity: nat, uuids: seq<string>)
    requires 1 <= capacity
    ensures Window(capacity, uuids) == LastOf(Insertions(capacity, uuids), capacity)
    ensures Spaced(Insertions(capacity, uuids), capacity)
  {
    if uuids != [] {
      var init, last := uuids[..|uuids| - 1], uuids[|uuids| - 1];
      WindowHoldsLastInsertions(capacity, init);
      if last !in Window(capacity, init) {
        PushKeepsLast(Insertions(capacity, init), capacity, last);
      }
    }
  }

  function Elements(s: seq<string>): set<string> {
    set u | u in s
  }

  lemma {:induction false} DistinctCount(s: seq<string>)
    requires forall i, j :: 0 <= i < j < |s| ==> s[i] != s[j]
    ensures |Elements(s)| == |s|
  {
    if s != [] {
      var init, last := s[..|s| - 1], s[|s| - 1];
      DistinctCount(init);
      assert Elements(s) == Elements(init) + {last};
    }
  }

  /** Between two occurrences of a uuid stand at least `capacity` different others. */
  lemma {:induction false} RepeatsAreFarApart(s: seq<string>, capacity: nat, i: nat, j: nat)
    requires Spaced(s, capacity) && i < j < |s| && s[i] == s[j]
    ensures |Elements(s[i + 1..j]) - {s[i]}| >= capacity
  {
    var near := s[i + 1..i + 1 + capacity];
    DistinctCount(near);
    forall u | u in near
      ensures u in Elements(s[i + 1..j]) - {s[i]}
    {
      var k :| 0 <= k < |near| && near[k] == u;
      assert s[i + 1..j][k] == u && s[i + 1 + k] == u;
    }
    SubsetCount(Elements(near), Elements(s[i + 1..j]) - {s[i]});
  }

  lemma {:induction false} SubsetCount(a: set<string>, b: set<string>)
    requires a <= b
    ensures |a| <= |b|
  {
    if a != {} {
      var x :| x in a;
      SubsetCount(a - {x}, b - {x});
    }
  }

  // ---------- sending and receiving ----------

  datatype SdkMessage = User(uuid: string, body: nat) | Assistant(uuid: string, body: nat) | Other(body: nat) {
    function Uuid(): Option<string> {
      if Other? then None else Some(uuid)
    }
  }

  /** What the socket yields; a text frame may fail to parse. */
  datatype Frame = Text(msg: Option<SdkMessage>) | Close | OtherFrame | SocketError

  datatype Received = Delivered(msg: SdkMessage) | Ended | Failed

  predicate Skips(frame: Frame, posted: seq<string>, inbound: seq<string>) {
    match frame
    case OtherFrame => true
    case Text(Some(msg)) => msg.Uuid().Some? && (msg.uuid in posted || (msg.User? && msg.uuid in inbound))
    case _ => false
  }

  /** Skip echoes and duplicates up to the first frame that decides the call. */
  function Receive(frames: seq<Frame>, posted: seq<string>, inbound: seq<string>): (Received, seq<Frame>) {
    if frames == [] then (Ended, [])
    else if Skips(frames[0], posted, inbound) then Receive(frames[1..], posted, inbound)
    else match frames[0]
      case Text(Some(msg)) => (Delivered(msg), frames[1..])
      case Close => (Ended, frames[1..])
      case _ => (Failed, frames[1..])
  }

  /** The first frame that is neither an echo nor a duplicate nor noise decides the call, and exactly
      the frames before it are dropped. */
  lemma {:induction false} FirstFrameDecides(frames: seq<Frame>, posted: seq<string>, inbound: seq<string>, n: nat)
    requires n <= |frames| && forall i :: 0 <= i < n ==> Skips(frames[i], posted, inbound)
    requires n < |frames| ==> !Skips(frames[n], posted, inbound)
    ensures n == |frames| ==> Receive(frames, posted, inbound) == (Ended, [])
    ensures n < |frames| ==>
              && Receive(frames, posted, inbound).1 == frames[n + 1..]
              && (Receive(frames, posted, inbound).0.Ended? <==> frames[n].Close?)
              && forall msg :: Receive(frames, posted, inbound).0 == Delivered(msg) <==> frames[n] == Text(Some(msg))
  {
    if n > 0 {
      FirstFrameDecides(frames[1..], posted, inbound, n - 1);
      assert n < |frames| ==> frames[1..][n..] == frames[n + 1..];
    }
  }

  lemma {:induction false} DeliveredIsNew(frames: seq<Frame>, posted: seq<string>, inbound: seq<string>)
    requires Receive(frames, posted, inbound).0.Delivered?
    ensures var msg := Receive(frames, posted, inbound).0.msg;
            && (msg.Uuid().Some? ==> msg.uuid !in posted)
            && (msg.User? ==> msg.uuid !in inbound)
  {
    if Skips(frames[0], posted, inbound) {
      DeliveredIsNew(frames[1..], posted, inbound);
    }
  }

  function Remember(inbound: seq<string>, capacity: nat, received: Received): seq<string> {
    if received.Delivered? && received.msg.User? then AddUuid(inbound, capacity, received.msg.uuid) else inbound
  }

  const SESSION_INGRESS_UUID_DEDUP_CAPACITY: nat := 1024

  class TransportHandle {
    const recentPostedUuids: BoundedUuidSet
    const recentInboundUuids: BoundedUuidSet
    var incoming: seq<Frame>

    ghost predicate Valid()
      reads this, recentPostedUuids, recentInboundUuids
    {
      recentPostedUuids != recentInboundUuids && recentPostedUuids.Valid() && recentInboundUuids.Valid()
    }

    constructor (frames: seq<Frame>)
      ensures Valid() && incoming == frames && recentPostedUuids.ring == [] && recentInboundUuids.ring == []
      ensures recentPostedUuids.capacity == recentInboundUuids.capacity == SESSION_INGRESS_UUID_DEDUP_CAPACITY
      ensures fresh(recentPostedUuids) && fresh(recentInboundUuids)
    {
      var posted := new BoundedUuidSet(SESSION_INGRESS_UUID_DEDUP_CAPACITY);
      var inbound := new BoundedUuidSet(SESSION_INGRESS_UUID_DEDUP_CAPACITY);
      recentPostedUuids, recentInboundUuids, incoming := posted, inbound, frames;
    }

    /** The uuid is remembered before the write, which may fail. */
    method Send(msg: SdkMessage, writes: bool) returns (ok: bool)
      requires Valid()
      modifies recentPostedUuids
      ensures Valid() && ok == writes
      ensures recentPostedUuids.ring == if msg.Uuid().Some? then AddUuid(old(recentPostedUuids.ring), recentPostedUuids.capacity, msg.uuid)
                                        else old(recentPostedUuids.ring)
    {
      if !msg.Other? {
        recentPostedUuids.Add(msg.uuid);
      }
      ok := writes;
    }

    method Recv() returns (result: Received)
      requires Valid()
      modifies this`incoming, recentInboundUuids
      ensures Valid()
      ensures (result, incoming) == Receive(old(incoming), recentPostedUuids.ring, old(recentInboundUuids.ring))
      ensures recentInboundUuids.ring == Remember(old(recentInboundUuids.ring), recentInboundUuids.capacity, result)
    {
      while |incoming| > 0
        invariant Valid() && recentInboundUuids.ring == old(recentInboundUuids.ring)
        invariant Receive(old(incoming), recentPostedUuids.ring, old(recentInboundUuids.ring))
                  == Receive(incoming, recentPostedUuids.ring, recentInboundUuids.ring)
        decreases |incoming|
      {
        var frame := incoming[0];
        incoming := incoming[1..];
        match frame {
          case Text(None) => return Failed;
          case Text(Some(msg)) =>
            if !msg.Other? {
              if recentPostedUuids.Has(msg.uuid) {
                continue;
              }
              if msg.User? {
                if recentInboundUuids.Has(msg.uuid) {
                  continue;
                }
                recentInboundUuids.Add(msg.uuid);
              }
            }
            return Delivered(msg);
          case Close => return Ended;
          case OtherFrame => continue;
          case SocketError => return Failed;
        }
      }
      result := Ended;
    }
  }

  // ---------- every run ----------

  datatype Call = SendCall(msg: SdkMessage) | RecvCall

  datatype Session = Session(posts: seq<string>, incoming: seq<Frame>, delivered: seq<SdkMessage>)

  function Users(msgs: seq<SdkMessage>): seq<string> {
    if msgs == [] then []
    else Users(msgs[..|msgs| - 1]) + (if msgs[|msgs| - 1].User? then [msgs[|msgs| - 1].uuid] else [])
  }

  /** A session from the calls made, the frames that arrive and the window size. The windows are what
      the posted uuids and the delivered user messages leave in them. */
  function After(calls: seq<Call>, frames: seq<Frame>, capacity: nat): Session {
    if calls == [] then Session([], frames, [])
    else
      var s := After(calls[..|calls| - 1], frames, capacity);
      match calls[|calls| - 1]
      case SendCall(msg) => if msg.Uuid().Some? then s.(posts := s.posts + [msg.uuid]) else s
      case RecvCall =>
        var (received, rest) := Receive(s.incoming, Window(capacity, s.posts), Window(capacity, Users(s.delivered)));
        s.(incoming := rest, delivered := if received.Delivered? then s.delivered + [received.msg] else s.delivered)
  }

  /** The inbound window is kept by `Recv` exactly as the run describes it. */
  lemma {:induction false} InboundWindowIsDelivered(delivered: seq<SdkMessage>, capacity: nat, received: Received)
    ensures Remember(Window(capacity, Users(delivered)), capacity, received)
            == Window(capacity, Users(if received.Delivered? then delivered + [received.msg] else delivered))
  {
    if received.Delivered? {
      assert (delivered + [received.msg])[..|delivered|] == delivered;
      if received.msg.User? {
        assert (Users(delivered) + [received.msg.uuid])[..|Users(delivered)|] == Users(delivered);
      } else {
        assert Users(delivered) + [] == Users(delivered);
      }
    }
  }

  lemma {:induction false} InsertionsPush(uuids: seq<string>, capacity: nat, uuid: string)
    requires uuid !in LastOf(Insertions(capacity, uuids), capacity)
    ensures Insertions(capacity, uuids + [uuid]) == Insertions(capacity, uuids) + [uuid]
  {
    assert (uuids + [uuid])[..|uuids|] == uuids;
  }

  lemma {:induction false} UsersPush(msgs: seq<SdkMessage>, msg: SdkMessage)
    ensures Users(msgs + [msg]) == Users(msgs) + (if msg.User? then [msg.uuid] else [])
  {
    assert (msgs + [msg])[..|msgs|] == msgs;
  }

  /** A delivered user message was new to the window. */
  lemma {:induction false} DeliveredPushes(s: Session, capacity: nat)
    requires Insertions(capacity, Users(s.delivered)) == Users(s.delivered)
    requires Receive(s.incoming, Window(capacity, s.posts), Window(capacity, Users(s.delivered))).0.Delivered?
    ensures var msg := Receive(s.incoming, Window(capacity, s.posts), Window(capacity, Users(s.delivered))).0.msg;
            Insertions(capacity, Users(s.delivered + [msg])) == Users(s.delivered + [msg])
  {
    var msg := Receive(s.incoming, Window(capacity, s.posts), Window(capacity, Users(s.delivered))).0.msg;
    DeliveredIsNew(s.incoming, Window(capacity, s.posts), Window(capacity, Users(s.delivered)));
    UsersPush(s.delivered, msg);
    if msg.User? {
      if capacity > 0 {
        WindowHoldsLastInsertions(capacity, Users(s.delivered));
      }
      InsertionsPush(Users(s.delivered), capacity, msg.uuid);
    } else {
      assert Users(s.delivered) + [] == Users(s.delivered);
    }
  }

  lemma {:induction false} DeliveredUsersAreInsertions(calls: seq<Call>, frames: seq<Frame>, capacity: nat)
    ensures var users := Users(After(calls, frames, capacity).delivered);
            Insertions(capacity, users) == users
  {
    if calls != [] {
      var s := After(calls[..|calls| - 1], frames, capacity);
      DeliveredUsersAreInsertions(calls[..|calls| - 1], frames, capacity);
      if calls[|calls| - 1].RecvCall? {
        if Receive(s.incoming, Window(capacity, s.posts), Window(capacity, Users(s.delivered))).0.Delivered? {
          DeliveredPushes(s, capacity);
        }
      }
    }
  }

  /** Two delivered user messages with one uuid have at least `capacity` other user uuids delivered
      between them. */
  lemma {:induction false} DuplicatesAreFarApart(calls: seq<Call>, frames: seq<Frame>, capacity: nat, i: nat, j: nat)
    requires 1 <= capacity
    requires i < j < |Users(After(calls, frames, capacity).delivered)|
    requires Users(After(calls, frames, capacity).delivered)[i] == Users(After(calls, frames, capacity).delivered)[j]
    ensures var users := Users(After(calls, frames, capacity).delivered);
            |Elements(users[i + 1..j]) - {users[i]}| >= capacity
  {
    var users := Users(After(calls, frames, capacity).delivered);
    DeliveredUsersAreInsertions(calls, frames, capacity);
    WindowHoldsLastInsertions(capacity, users);
    RepeatsAreFarApart(users, capacity, i, j);
  }

  /** In any session, the next message delivered does not carry one of the last `capacity` uuids
      newly posted; and any text frame that does is skipped. */
  lemma {:induction false} EchoesAreDropped(calls: seq<Call>, frames: seq<Frame>, capacity: nat, msg: SdkMessage)
    requires 1 <= capacity && msg.Uuid().Some?
    requires var s := After(calls, frames, capacity); msg.uuid in LastOf(Insertions(capacity, s.posts), capacity)
    ensures var s := After(calls, frames, capacity);
            && Skips(Text(Some(msg)), Window(capacity, s.posts), Window(capacity, Users(s.delivered)))
            && Receive(s.incoming, Window(capacity, s.posts), Window(capacity, Users(s.delivered))).0 != Delivered(msg)
  {
    var s := After(calls, frames, capacity);
    WindowHoldsLastInsertions(capacity, s.posts);
    if Receive(s.incoming, Window(capacity, s.posts), Window(capacity, Users(s.delivered))).0 == Delivered(msg) {
      DeliveredIsNew(s.incoming, Window(capacity, s.posts), Window(capacity, Users(s.delivered)));
    }
  }

  /** What a call passes over, given the uuids lately posted and lately delivered: frames that are no text,
      messages with a uuid lately posted, and user messages with one lately delivered. */
  predicate PassedOver(frame: Frame, posted: seq<string>, delivered: seq<string>) {
    match frame
    case OtherFrame => true
    case Text(Some(User(uuid, _))) => uuid in posted || uuid in delivered
    case Text(Some(Assistant(uuid, _))) => uuid in posted
    case Text(Some(Other(_))) => false
    case Text(None) => false
    case Close => false
    case SocketError => false
  }

  lemma {:induction false} SkipsExactly(frame: Frame, posted: seq<string>, delivered: seq<string>)
    ensures Skips(frame, posted, delivered) <==> PassedOver(frame, posted, delivered)
  {
  }

  /** The last `capacity` uuids newly posted, and the last `capacity` user uuids delivered. */
  function LatelyPosted(s: Session, capacity: nat): seq<string> { LastOf(Insertions(capacity, s.posts), capacity) }

  function LatelyDelivered(s: Session, capacity: nat): seq<string> { LastOf(Users(s.delivered), capacity) }

  lemma {:induction false} WindowsAreLately(calls: seq<Call>, frames: seq<Frame>, capacity: nat)
    requires 1 <= capacity
    ensures var s := After(calls, frames, capacity);
            && Window(capacity, s.posts) == LatelyPosted(s, capacity)
            && Window(capacity, Users(s.delivered)) == LatelyDelivered(s, capacity)
  {
    var s := After(calls, frames, capacity);
    DeliveredUsersAreInsertions(calls, frames, capacity);
    WindowHoldsLastInsertions(capacity, s.posts);
    WindowHoldsLastInsertions(capacity, Users(s.delivered));
  }

  /** Frame n is the first that is not passed over, or all frames are. */
  ghost predicate Decides(s: Session, capacity: nat, n: nat) {
    && n <= |s.incoming|
    && (forall i :: 0 <= i < n ==> PassedOver(s.incoming[i], LatelyPosted(s, capacity), LatelyDelivered(s, capacity)))
    && (n < |s.incoming| ==> !PassedOver(s.incoming[n], LatelyPosted(s, capacity), LatelyDelivered(s, capacity)))
  }

  /** Some frame decides, or none is left. */
  lemma {:induction false} SomeFrameDecides(s: Session, capacity: nat, k: nat) returns (n: nat)
    requires k <= |s.incoming|
    requires forall i :: 0 <= i < k ==> PassedOver(s.incoming[i], LatelyPosted(s, capacity), LatelyDelivered(s, capacity))
    ensures Decides(s, capacity, n)
    decreases |s.incoming| - k
  {
    if k < |s.incoming| && PassedOver(s.incoming[k], LatelyPosted(s, capacity), LatelyDelivered(s, capacity)) {
      n := SomeFrameDecides(s, capacity, k + 1);
    } else {
      n := k;
    }
  }

  /** Every user and assistant message sent counts as posted, whether or not its write succeeds; others have
      no uuid. */
  lemma {:induction false} SendPosts(calls: seq<Call>, frames: seq<Frame>, capacity: nat, msg: SdkMessage)
    ensures var s := After(calls, frames, capacity);
            After(calls + [SendCall(msg)], frames, capacity) == s.(posts := s.posts + (match msg
              case User(uuid, _) => [uuid]
              case Assistant(uuid, _) => [uuid]
              case Other(_) => []))
  {
    assert (calls + [SendCall(msg)])[..|calls|] == calls;
    assert After(calls, frames, capacity).posts + [] == After(calls, frames, capacity).posts;
  }

  /** In any session the next receive goes exactly to the first frame that is not passed over: it delivers
      the message in it, ends at a close, and fails at anything else. With no such frame the session ends. */
  lemma {:induction false} NextIsDelivered(calls: seq<Call>, frames: seq<Frame>, capacity: nat, n: nat)
    requires 1 <= capacity && Decides(After(calls, frames, capacity), capacity, n)
    ensures var s, next := After(calls, frames, capacity), After(calls + [RecvCall], frames, capacity);
            && next.posts == s.posts
            && next.incoming == (if n < |s.incoming| then s.incoming[n + 1..] else [])
            && next.delivered == s.delivered + (if n < |s.incoming| && s.incoming[n].Text? && s.incoming[n].msg.Some?
                                                then [s.incoming[n].msg.value] else [])
    ensures var s := After(calls, frames, capacity);
            var received := Receive(s.incoming, Window(capacity, s.posts), Window(capacity, Users(s.delivered))).0;
            && (received.Ended? <==> n == |s.incoming| || s.incoming[n].Close?)
            && (received.Delivered? <==> n < |s.incoming| && s.incoming[n].Text? && s.incoming[n].msg.Some?)
  {
    var s := After(calls, frames, capacity);
    assert (calls + [RecvCall])[..|calls|] == calls;
    WindowsAreLately(calls, frames, capacity);
    forall i | 0 <= i < |s.incoming|
      ensures Skips(s.incoming[i], LatelyPosted(s, capacity), LatelyDelivered(s, capacity))
              <==> PassedOver(s.incoming[i], LatelyPosted(s, capacity), LatelyDelivered(s, capacity))
    {
      SkipsExactly(s.incoming[i], LatelyPosted(s, capacity), LatelyDelivered(s, capacity));
    }
    FirstFrameDecides(s.incoming, LatelyPosted(s, capacity), LatelyDelivered(s, capacity), n);
    if n < |s.incoming| && s.incoming[n].Text? && s.incoming[n].msg.Some? {
      assert s.incoming[n] == Text(Some(s.incoming[n].msg.value));
    }
    assert s.delivered + [] == s.delivered;
  }

  /** The window counts from the insertion, not from the last use: "a" is posted again and still
      leaves after two newer uuids. */
  lemma {:induction false} RepostingDoesNotRefresh()
    ensures "a" !in Window(2, ["a", "b", "a", "c"])
  {
    var posts := ["a", "b", "a", "c"];
    assert posts[..3] == ["a", "b", "a"] && posts[..3][..2] == ["a", "b"] && ["a", "b"][..1] == ["a"];
    assert Window(2, ["a"]) == ["a"];
    assert Window(2, ["a", "b"]) == ["a", "b"];
    assert Window(2, posts[..3]) == ["a", "b"];
  }
}
