// Transaction identifiers: allocation and release in the test sequence, and their
// life between the sequence, the scoreboard's input and its in-flight table.
module TransactionIds {
  import opened Board
  import opened MemoryModel
  import opened Prelude

  // ------------------------------------------------------------ lists of identifiers

  predicate NoDup(s: seq<nat>) { forall i, j :: 0 <= i < j < |s| ==> s[i] != s[j] }

  predicate Below(s: seq<nat>, n: nat) { forall i :: 0 <= i < |s| ==> s[i] < n }

  function RemoveAt(s: seq<nat>, i: nat): seq<nat>
    requires i < |s|
  {
    s[..i] + s[i + 1..]
  }

  /** std::list erase of the first occurrence. */
  function RemoveFirst(s: seq<nat>, x: nat): seq<nat> {
    if s == [] then []
    else if s[0] == x then s[1..]
    else [s[0]] + RemoveFirst(s[1..], x)
  }

  lemma {:induction false} RemoveFirstMeaning(s: seq<nat>, x: nat)
    requires NoDup(s)
    ensures NoDup(RemoveFirst(s, x))
    ensures forall y :: y in RemoveFirst(s, x) <==> y in s && y != x
    ensures |RemoveFirst(s, x)| == |s| - (if x in s then 1 else 0)
  {
    if s != [] {
      NoDupTail(s);
      RemoveFirstMeaning(s[1..], x);
      assert forall y :: y in s <==> y == s[0] || y in s[1..];
    }
  }

  lemma NoDupTail(s: seq<nat>)
    requires NoDup(s) && s != []
    ensures NoDup(s[1..]) && s[0] !in s[1..]
  {
  }

  /** Fewer than n identifiers below n leave one free. */
  lemma {:induction false} SomeFree(s: seq<nat>, n: nat) returns (f: nat)
    requires NoDup(s) && Below(s, n) && |s| < n
    ensures f < n && f !in s
    decreases n
  {
    if n - 1 !in s {
      f := n - 1;
    } else {
      var s' := RemoveFirst(s, n - 1);
      RemoveFirstMeaning(s, n - 1);
      forall i | 0 <= i < |s'|
        ensures s'[i] < n - 1
      {
        assert s'[i] in s';
      }
      f := SomeFree(s', n - 1);
    }
  }

  /** Steps from `id` to `f` going up modulo n. */
  function Distance(id: nat, f: nat, n: nat): nat
    requires id < n && f < n
  {
    if id <= f then f - id else n - id + f
  }

  lemma NextIsCloser(id: nat, f: nat, n: nat)
    requires id < n && f < n && id != f
    ensures (id + 1) % n < n && Distance((id + 1) % n, f, n) < Distance(id, f, n)
  {
    if id + 1 < n {
      RemainderUnique(id + 1, n, 0, id + 1);
    } else {
      RemainderUnique(id + 1, n, 1, 0);
    }
  }

  // ----------------------------------------------------------- hpdcache_test_sequence

  class IdPool {
    const maxId: nat
    var ids: seq<nat>

    ghost predicate Valid()
      reads this
    {
      maxId > 0 && NoDup(ids) && Below(ids, maxId)
    }

    constructor (width: nat)
      ensures Valid() && ids == [] && maxId == Pow2(width)
    {
      maxId := Pow2(width);
      ids := [];
    }

    method IsAvailableId() returns (free: bool)
      requires Valid()
      ensures free ==> exists f: nat :: f < maxId && f !in ids
      ensures !free ==> |ids| == maxId
    {
      free := |ids| < maxId;
      if free {
        var f := SomeFree(ids, maxId);
      } else {
        NotTooMany(ids, maxId);
      }
    }

    /** The probe ends whenever an identifier is free, and hands out the first free one
        at or after the random start, going round. */
    method AllocateId(random: nat) returns (id: nat)
      requires Valid() && |ids| < maxId
      modifies this`ids
      ensures Valid() && id < maxId && id !in old(ids) && ids == old(ids) + [id]
      ensures forall f: nat :: f < maxId && f !in old(ids) ==>
                Distance(random % maxId, id, maxId) <= Distance(random % maxId, f, maxId)
    {
      id := random % maxId;
      ghost var free := SomeFree(ids, maxId);
      while id in ids
        invariant id < maxId && ids == old(ids)
        invariant forall f: nat :: f < maxId && f !in ids ==>
                    Distance(random % maxId, id, maxId) + Distance(id, f, maxId) == Distance(random % maxId, f, maxId)
        decreases Distance(id, free, maxId)
      {
        NextIsCloser(id, free, maxId);
        ghost var before := id;
        id := (id + 1) % maxId;
        forall f: nat | f < maxId && f !in ids
          ensures Distance(random % maxId, id, maxId) + Distance(id, f, maxId) == Distance(random % maxId, f, maxId)
        {
          ProbeStep(random % maxId, before, f, maxId);
        }
      }
      ids := ids + [id];
    }

    method DeallocateId(id: nat) returns (error: bool)
      requires Valid()
      modifies this`ids
      ensures Valid() && ids == RemoveFirst(old(ids), id)
      ensures error <==> id !in old(ids)
    {
      RemoveFirstMeaning(ids, id);
      BelowAfterRemove(ids, id, maxId);
      for k := 0 to |ids|
        invariant ids == old(ids) && id !in ids[..k]
      {
        if ids[k] == id {
          RemoveFirstIsRemoveAt(ids, id, k);
          ids := RemoveAt(ids, k);
          return false;
        }
      }
      RemoveAbsent(ids, id);
      return true;
    }
  }

  lemma {:induction false} NotTooMany(s: seq<nat>, n: nat)
    requires NoDup(s) && Below(s, n)
    ensures |s| <= n
    decreases n
  {
    if s != [] {
      assert s[0] < n;
      var s' := RemoveFirst(s, n - 1);
      RemoveFirstMeaning(s, n - 1);
      forall i | 0 <= i < |s'|
        ensures s'[i] < n - 1
      {
        assert s'[i] in s';
      }
      NotTooMany(s', n - 1);
    }
  }

  lemma ProbeStep(start: nat, id: nat, f: nat, n: nat)
    requires start < n && id < n && f < n && id != f
    requires Distance(start, id, n) + Distance(id, f, n) == Distance(start, f, n)
    ensures (id + 1) % n < n
    ensures Distance(start, (id + 1) % n, n) + Distance((id + 1) % n, f, n) == Distance(start, f, n)
  {
    if id + 1 < n {
      RemainderUnique(id + 1, n, 0, id + 1);
    } else {
      RemainderUnique(id + 1, n, 1, 0);
    }
  }

  lemma {:induction false} RemoveFirstIsRemoveAt(s: seq<nat>, x: nat, k: nat)
    requires k < |s| && s[k] == x && x !in s[..k]
    ensures RemoveFirst(s, x) == RemoveAt(s, k)
  {
    if k > 0 {
      assert s[0] in s[..k];
      assert s[1..][..k - 1] == s[..k][1..];
      RemoveFirstIsRemoveAt(s[1..], x, k - 1);
    }
  }

  lemma {:induction false} RemoveAbsent(s: seq<nat>, x: nat)
    requires x !in s
    ensures RemoveFirst(s, x) == s
  {
    if s != [] {
      RemoveAbsent(s[1..], x);
    }
  }

  lemma BelowAfterRemove(s: seq<nat>, x: nat, n: nat)
    requires NoDup(s) && Below(s, n)
    ensures Below(RemoveFirst(s, x), n)
  {
    RemoveFirstMeaning(s, x);
    forall i | 0 <= i < |RemoveFirst(s, x)|
      ensures RemoveFirst(s, x)[i] < n
    {
      assert RemoveFirst(s, x)[i] in RemoveFirst(s, x);
    }
  }

  // ------------------------------------------------------------------ the protocol

  /** `ids` is the sequence's list, `sent` the requests that the scoreboard has not read yet, and `board`
      the scoreboard, whose table of requests in flight holds the others. `idReports` counts the
      reports about identifiers: one already in flight, one not in flight, one not in use. */
  datatype Protocol = Protocol(
    ids: seq<nat>, sent: seq<CoreReq>, board: BoardState, needRsp: nat, responses: nat, idReports: nat)
  {
    function Inflight(): set<nat> { board.inflight.Keys }
  }

  const START: Protocol := Protocol([], [], RESET, 0, 0, 0)

  datatype Action = Send(req: CoreReq) | Read | Response(resp: CoreResp) | MemoryEvent(event: BoardEvent)

  /** deallocate_id */
  function Release(p: Protocol, tid: nat): Protocol {
    if tid in p.ids then p.(ids := RemoveFirst(p.ids, tid)) else p.(idReports := p.idReports + 1)
  }

  /** core_req_process on the next request: where it stops early, it neither releases the identifier nor
      keeps the request in flight. */
  function ReadRequest(p: Protocol, segs: seq<Segment>, req: CoreReq): Protocol {
    var q := p.(needRsp := p.needRsp + (if req.needRsp then 1 else 0), board := OnCoreReq(p.board, segs, req));
    if req.tid in p.board.inflight then q.(idReports := q.idReports + 1)
    else if !Untracked(req) && FifoFull(p.board, segs, req) then q
    else if req.needRsp then q
    else Release(q, req.tid)
  }

  /** core_resp_process: on a wrong error flag, it stops before it releases the identifier. */
  function ReadResponse(p: Protocol, resp: CoreResp): Protocol {
    var q := p.(responses := p.responses + 1, board := OnCoreResp(p.board, resp));
    if resp.tid !in p.board.inflight then q.(idReports := q.idReports + 1)
    else if WrongFlag(p.board.inflight[resp.tid], resp) then q
    else Release(q, resp.tid)
  }

  /** The scoreboard follows the next request, or has nothing to follow. */
  predicate Accepted(p: Protocol, segs: seq<Segment>)
    requires |p.sent| > 0
  {
    Untracked(p.sent[0]) || !FifoFull(p.board, segs, p.sent[0])
  }

  /** The discipline: identifiers come from allocate_id; a request is read in order, and when the fifo has
      room if it announces an atomic operation; an expected response arrives once, after the scoreboard
      has seen its request, with the expected error flag. */
  predicate Allowed(p: Protocol, segs: seq<Segment>, a: Action, maxId: nat) {
    match a
    case Send(req) => req.tid < maxId && req.tid !in p.ids
    case Read => |p.sent| > 0 && Accepted(p, segs)
    case Response(resp) => resp.tid in p.board.inflight && !WrongFlag(p.board.inflight[resp.tid], resp)
    case MemoryEvent(event) => event.FromMemory()
  }

  function Next(p: Protocol, segs: seq<Segment>, a: Action): Protocol
    requires a.Read? ==> |p.sent| > 0
  {
    match a
    case Send(req) => p.(ids := p.ids + [req.tid], sent := p.sent + [req])
    case Read => ReadRequest(p.(sent := p.sent[1..]), segs, p.sent[0])
    case Response(resp) => ReadResponse(p, resp)
    case MemoryEvent(event) => p.(board := OnEvent(p.board, segs, event))
  }

  function Tids(sent: seq<CoreReq>): (s: seq<nat>)
    ensures |s| == |sent|
  {
    seq(|sent|, i requires 0 <= i < |sent| => sent[i].tid)
  }

  /** Identifiers in use are the disjoint union of those on their way and those in flight; every expected
      response is counted or still in flight; no identifier was reported. */
  ghost predicate Balanced(ids: seq<nat>, sent: seq<nat>, inflight: set<nat>, needRsp: nat, responses: nat,
                           idReports: nat, maxId: nat)
  {
    && NoDup(ids) && Below(ids, maxId) && NoDup(sent)
    && (forall x :: x in ids <==> x in sent || x in inflight)
    && (forall x :: x in inflight ==> x !in sent)
    && needRsp == responses + |inflight|
    && idReports == 0
  }

  ghost predicate Sound(p: Protocol, maxId: nat) {
    Balanced(p.ids, Tids(p.sent), p.Inflight(), p.needRsp, p.responses, p.idReports, maxId)
  }

  lemma BalancedSend(ids: seq<nat>, sent: seq<nat>, inflight: set<nat>, n: nat, r: nat, e: nat, maxId: nat, tid: nat)
    requires Balanced(ids, sent, inflight, n, r, e, maxId) && tid < maxId && tid !in ids
    ensures Balanced(ids + [tid], sent + [tid], inflight, n, r, e, maxId)
  {
  }

  lemma BalancedHead(ids: seq<nat>, sent: seq<nat>, inflight: set<nat>, n: nat, r: nat, e: nat, maxId: nat)
    requires Balanced(ids, sent, inflight, n, r, e, maxId) && sent != []
    ensures sent[0] in ids && sent[0] !in inflight && sent[0] !in sent[1..] && NoDup(sent[1..])
    ensures forall x :: x in sent <==> x == sent[0] || x in sent[1..]
  {
    NoDupTail(sent);
    assert sent == [sent[0]] + sent[1..];
  }

  /** The head of the queue, read: kept in flight, released, or lost. */
  lemma BalancedRead(ids: seq<nat>, sent: seq<nat>, inflight: set<nat>, n: nat, r: nat, e: nat, maxId: nat, k: nat)
    requires Balanced(ids, sent, inflight, n, r, e, maxId) && sent != []
    ensures Balanced(ids, sent[1..], inflight + {sent[0]}, n + 1, r, e, maxId)
    ensures Balanced(RemoveFirst(ids, sent[0]), sent[1..], inflight, n, r, e, maxId)
    ensures !Balanced(ids, sent[1..], inflight, k, r, e, maxId)
  {
    BalancedHead(ids, sent, inflight, n, r, e, maxId);
    RemoveFirstMeaning(ids, sent[0]);
    BelowAfterRemove(ids, sent[0], maxId);
    hide NoDup, Below, RemoveFirst;
    assert |inflight + {sent[0]}| == |inflight| + 1;
    assert sent[0] in ids;
  }

  lemma BalancedResponse(ids: seq<nat>, sent: seq<nat>, inflight: set<nat>, n: nat, r: nat, e: nat, maxId: nat, tid: nat)
    requires Balanced(ids, sent, inflight, n, r, e, maxId) && tid in inflight
    ensures tid in ids && Balanced(RemoveFirst(ids, tid), sent, inflight - {tid}, n, r + 1, e, maxId)
    ensures !Balanced(ids, sent, inflight, n, r + 1, e, maxId)
  {
    RemoveFirstMeaning(ids, tid);
    BelowAfterRemove(ids, tid, maxId);
    hide NoDup, Below, RemoveFirst;
  }

  lemma SendSound(p: Protocol, segs: seq<Segment>, req: CoreReq, maxId: nat)
    requires Sound(p, maxId) && Allowed(p, segs, Send(req), maxId)
    ensures Sound(Next(p, segs, Send(req)), maxId)
  {
    assert Tids(p.sent + [req]) == Tids(p.sent) + [req.tid];
    hide Balanced;
    BalancedSend(p.ids, Tids(p.sent), p.Inflight(), p.needRsp, p.responses, p.idReports, maxId, req.tid);
  }

  /** The identifier of the next request. */
  lemma NextRequest(p: Protocol, maxId: nat)
    requires Sound(p, maxId) && |p.sent| > 0
    ensures var tid := p.sent[0].tid;
            && Tids(p.sent) != [] && Tids(p.sent)[0] == tid && Tids(p.sent)[1..] == Tids(p.sent[1..])
            && tid in p.ids && tid !in p.Inflight() && tid !in Tids(p.sent[1..])
  {
    assert Tids(p.sent)[1..] == Tids(p.sent[1..]);
    BalancedHead(p.ids, Tids(p.sent), p.Inflight(), p.needRsp, p.responses, p.idReports, maxId);
  }

  lemma ReadFields(p: Protocol, segs: seq<Segment>)
    requires |p.sent| > 0 && p.sent[0].tid in p.ids && p.sent[0].tid !in p.Inflight()
    ensures var q, req := Next(p, segs, Read), p.sent[0];
            && q.sent == p.sent[1..] && q.responses == p.responses && q.idReports == p.idReports
            && q.needRsp == p.needRsp + (if req.needRsp then 1 else 0)
            && q.ids == (if Accepted(p, segs) && !req.needRsp then RemoveFirst(p.ids, req.tid) else p.ids)
            && q.Inflight() == if Accepted(p, segs) && req.needRsp then p.Inflight() + {req.tid} else p.Inflight()
  {
    InflightAfterRequest(p.board, segs, p.sent[0]);
    hide OnCoreReq, FifoFull, MakeEntry, RemoveFirst;
  }

  /** Reading a request keeps the protocol sound exactly when an atomic operation finds room in the fifo. */
  lemma ReadSound(p: Protocol, segs: seq<Segment>, maxId: nat)
    requires Sound(p, maxId) && |p.sent| > 0
    ensures Sound(Next(p, segs, Read), maxId) <==> Accepted(p, segs)
  {
    hide *;
    var q := Next(p, segs, Read);
    SoundIs(p, maxId);
    SoundIs(q, maxId);
    NextRequest(p, maxId);
    ReadFields(p, segs);
    BalancedRead(p.ids, Tids(p.sent), p.Inflight(), p.needRsp, p.responses, p.idReports, maxId, q.needRsp);
  }

  lemma SoundIs(p: Protocol, maxId: nat)
    ensures Sound(p, maxId) <==>
            Balanced(p.ids, Tids(p.sent), p.Inflight(), p.needRsp, p.responses, p.idReports, maxId)
  {
    hide Balanced;
  }

  lemma InflightKey(p: Protocol, tid: nat)
    ensures tid in p.Inflight() <==> tid in p.board.inflight
  {
  }

  lemma ResponseFields(p: Protocol, segs: seq<Segment>, resp: CoreResp)
    requires resp.tid in p.ids && resp.tid in p.board.inflight
    ensures var q := Next(p, segs, Response(resp));
            && q.sent == p.sent && q.responses == p.responses + 1 && q.idReports == p.idReports && q.needRsp == p.needRsp
            && (if WrongFlag(p.board.inflight[resp.tid], resp) then q.ids == p.ids && q.Inflight() == p.Inflight()
                else q.ids == RemoveFirst(p.ids, resp.tid) && q.Inflight() == p.Inflight() - {resp.tid})
  {
    ResponseFrame(p.board, resp);
    hide OnCoreResp, WrongFlag, RemoveFirst;
  }

  /** Reading the response to a request in flight keeps the protocol sound exactly when its error flag is
      the expected one. */
  lemma ResponseSound(p: Protocol, segs: seq<Segment>, resp: CoreResp, maxId: nat)
    requires Sound(p, maxId) && resp.tid in p.board.inflight
    ensures Sound(Next(p, segs, Response(resp)), maxId) <==> !WrongFlag(p.board.inflight[resp.tid], resp)
  {
    hide *;
    SoundIs(p, maxId);
    SoundIs(Next(p, segs, Response(resp)), maxId);
    InflightKey(p, resp.tid);
    BalancedResponse(p.ids, Tids(p.sent), p.Inflight(), p.needRsp, p.responses, p.idReports, maxId, resp.tid);
    ResponseFields(p, segs, resp);
  }

  lemma MemorySound(p: Protocol, segs: seq<Segment>, event: BoardEvent, maxId: nat)
    requires Sound(p, maxId) && event.FromMemory()
    ensures Sound(Next(p, segs, MemoryEvent(event)), maxId)
  {
    MemoryFrame(p.board, segs, event);
    hide OnEvent, Balanced;
  }

  predicate ValidRun(segs: seq<Segment>, actions: seq<Action>, maxId: nat)
    decreases |actions|, 0
  {
    actions == [] ||
    (ValidRun(segs, actions[..|actions| - 1], maxId)
     && Allowed(Run(segs, actions[..|actions| - 1], maxId), segs, actions[|actions| - 1], maxId))
  }

  function Run(segs: seq<Segment>, actions: seq<Action>, maxId: nat): Protocol
    requires ValidRun(segs, actions, maxId)
    decreases |actions|, 1
  {
    if actions == [] then START
    else Next(Run(segs, actions[..|actions| - 1], maxId), segs, actions[|actions| - 1])
  }

  /** Over every disciplined run, identifiers are conserved and no report about one is reachable. */
  lemma {:induction false} ProtocolSound(segs: seq<Segment>, actions: seq<Action>, maxId: nat)
    requires ValidRun(segs, actions, maxId)
    ensures Sound(Run(segs, actions, maxId), maxId)
  {
    if actions != [] {
      var front, a := actions[..|actions| - 1], actions[|actions| - 1];
      ProtocolSound(segs, front, maxId);
      var p := Run(segs, front, maxId);
      hide Sound, Next, FifoFull, WrongFlag, Untracked, Accepted;
      match a
      case Send(req) => SendSound(p, segs, req, maxId);
      case Read => ReadSound(p, segs, maxId);
      case Response(resp) => ResponseSound(p, segs, resp, maxId);
      case MemoryEvent(event) => MemorySound(p, segs, event, maxId);
    }
  }

  /** Once everything is answered, the end-of-test checks pass: as many responses as requests
      that need one, and no identifier left over. */
  lemma QuiescentRunBalances(segs: seq<Segment>, actions: seq<Action>, maxId: nat)
    requires ValidRun(segs, actions, maxId)
    requires Run(segs, actions, maxId).sent == [] && Run(segs, actions, maxId).board.inflight == map[]
    ensures var p := Run(segs, actions, maxId); p.responses == p.needRsp && p.ids == []
  {
    ProtocolSound(segs, actions, maxId);
    var p := Run(segs, actions, maxId);
    if p.ids != [] {
      HasMember(p.ids);
    }
  }

  lemma HasMember(s: seq<nat>)
    requires s != []
    ensures exists x :: x in s
  {
    assert s[0] in s;
  }

  // ------------------------------------------------------- what the early exits leave behind

  /** An identifier in use that belongs to no request any more. */
  ghost predicate Leaked(p: Protocol, tid: nat) { tid in p.ids && tid !in Tids(p.sent) && tid !in p.Inflight() }

  /** An atomic request read while the fifo is full leaks its identifier, and the response to it, though
      it arrives once and after its request, is reported. */
  lemma FullFifoLeaks(p: Protocol, segs: seq<Segment>, resp: CoreResp, maxId: nat)
    requires Sound(p, maxId) && |p.sent| > 0 && !Accepted(p, segs)
    requires resp.tid == p.sent[0].tid
    ensures Leaked(Next(p, segs, Read), resp.tid)
    ensures Next(Next(p, segs, Read), segs, Response(resp)).idReports > 0
  {
    NextRequest(p, maxId);
    InflightAfterRequest(p.board, segs, p.sent[0]);
    hide OnCoreReq, FifoFull, MakeEntry, Below, NoDup;
  }

  /** A leaked identifier never comes back. */
  lemma LeakStays(p: Protocol, segs: seq<Segment>, a: Action, tid: nat, maxId: nat)
    requires Leaked(p, tid) && Allowed(p, segs, a, maxId)
    ensures Leaked(Next(p, segs, a), tid)
  {
    match a
    case Send(req) =>
      assert Tids(p.sent + [req]) == Tids(p.sent) + [req.tid];
    case Read =>
      var req := p.sent[0];
      assert Tids(p.sent) == [req.tid] + Tids(p.sent[1..]);
      InflightAfterRequest(p.board, segs, req);
      hide OnCoreReq, FifoFull, MakeEntry, Untracked;
      RemoveOther(p.ids, req.tid, tid);
    case Response(resp) =>
      ResponseFrame(p.board, resp);
      hide OnCoreResp, WrongFlag;
      RemoveOther(p.ids, resp.tid, tid);
    case MemoryEvent(event) =>
      MemoryFrame(p.board, segs, event);
      hide OnEvent;
  }

  lemma {:induction false} RemoveOther(s: seq<nat>, x: nat, y: nat)
    requires y in s && x != y
    ensures y in RemoveFirst(s, x)
  {
    if s[0] != x && s[0] != y {
      RemoveOther(s[1..], x, y);
    }
  }

  function LrReq(tid: nat): CoreReq { CoreReq(Lr, tid, 0, 8, ZERO_WORD, NO_BYTES, true) }

  /** `n` load-reserved requests sent and read, with no activity of the memory. */
  function Reserves(n: nat): seq<Action> {
    if n == 0 then [] else Reserves(n - 1) + [Send(LrReq(n - 1))] + [Read]
  }

  lemma RunExtends(segs: seq<Segment>, actions: seq<Action>, a: Action, maxId: nat)
    requires ValidRun(segs, actions, maxId) && Allowed(Run(segs, actions, maxId), segs, a, maxId)
    ensures ValidRun(segs, actions + [a], maxId)
    ensures Run(segs, actions + [a], maxId) == Next(Run(segs, actions, maxId), segs, a)
  {
    assert (actions + [a])[..|actions + [a]| - 1] == actions;
    hide Allowed, Next;
  }

  /** Sending and reading one load-reserved request. */
  lemma OneReserve(p: Protocol, segs: seq<Segment>, tid: nat, maxId: nat)
    requires Sound(p, maxId) && p.sent == [] && tid < maxId && tid !in p.ids && |p.board.amoFifo| < FIFO_SIZE
    ensures var q := Next(p, segs, Send(LrReq(tid)));
            && Allowed(p, segs, Send(LrReq(tid)), maxId) && Allowed(q, segs, Read, maxId)
            && var r := Next(q, segs, Read);
               r.sent == [] && |r.board.amoFifo| == |p.board.amoFifo| + 1 && r.ids == p.ids + [tid]
  {
    FifoGrows(p.board, segs, LrReq(tid));
    assert tid !in p.board.inflight;
    hide OnCoreReq, FifoFull, Tids, MakeEntry;
  }

  lemma ReservesStep(n: nat)
    requires n > 0
    ensures Reserves(n) == Reserves(n - 1) + [Send(LrReq(n - 1))] + [Read]
  {
  }

  /** The first sixteen are fine and fill the fifo. */
  lemma {:induction false} ReservesRun(segs: seq<Segment>, n: nat, maxId: nat)
    requires n <= FIFO_SIZE && n <= maxId
    ensures ValidRun(segs, Reserves(n), maxId)
    ensures var p := Run(segs, Reserves(n), maxId);
            p.sent == [] && |p.board.amoFifo| == n && forall x :: x in p.ids ==> x < n
  {
    if n > 0 {
      ReservesRun(segs, n - 1, maxId);
      var done, send := Reserves(n - 1), Send(LrReq(n - 1));
      hide Reserves;
      ProtocolSound(segs, done, maxId);
      var p := Run(segs, done, maxId);
      hide Sound, ValidRun, Run, Next, Allowed, LrReq, Accepted;
      OneReserve(p, segs, n - 1, maxId);
      RunExtends(segs, done, send, maxId);
      RunExtends(segs, done + [send], Read, maxId);
      ReservesStep(n);
      hide *;
    }
  }

  lemma FifoGrows(b: BoardState, segs: seq<Segment>, req: CoreReq)
    requires req.op.Lr?
    ensures FifoFull(b, segs, req) <==> |b.amoFifo| >= FIFO_SIZE
    ensures req.tid !in b.inflight && |b.amoFifo| < FIFO_SIZE
            ==> |OnCoreReq(b, segs, req).amoFifo| == |b.amoFifo| + 1
  {
    hide ShadowData, ShadowValid, WithinErrorRegion, AddrMatch;
  }

  /** The seventeenth atomic operation that waits for the memory leaks its identifier, in a run that kept
      the discipline until then. */
  lemma SeventeenthAtomicLeaks(segs: seq<Segment>, maxId: nat, resp: CoreResp)
    requires maxId > 16 && resp.tid == 16
    ensures var actions := Reserves(16) + [Send(LrReq(16))];
            && ValidRun(segs, actions, maxId)
            && var p := Run(segs, actions, maxId);
               && p.sent == [LrReq(16)]
               && Leaked(Next(p, segs, Read), 16)
               && Next(Next(p, segs, Read), segs, Response(resp)).idReports > 0
  {
    ReservesRun(segs, 16, maxId);
    var done := Reserves(16);
    var actions := done + [Send(LrReq(16))];
    hide Reserves, Sound, FifoFull, OnCoreReq, Leaked, ValidRun, Run;
    RunExtends(segs, done, Send(LrReq(16)), maxId);
    var p := Run(segs, actions, maxId);
    ProtocolSound(segs, actions, maxId);
    FifoGrows(p.board, segs, LrReq(16));
    FullFifoLeaks(p, segs, resp, maxId);
  }

  /** A response with a wrong error flag is counted, but its request stays in flight for ever as far as
      the counters are concerned: the end-of-test balance is off. */
  lemma WrongFlagUnbalances(p: Protocol, segs: seq<Segment>, resp: CoreResp, maxId: nat)
    requires Sound(p, maxId) && resp.tid in p.board.inflight && WrongFlag(p.board.inflight[resp.tid], resp)
    ensures var q := Next(p, segs, Response(resp));
            resp.tid in q.ids && resp.tid in q.Inflight() && q.needRsp < q.responses + |q.Inflight()|
  {
    ResponseFrame(p.board, resp);
    hide OnCoreResp, WrongFlag;
  }
}
