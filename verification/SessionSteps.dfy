/** The steps of the session machine spelled out field by field, with every limit in numbers. */
module SessionSteps {
  import opened Bytes
  import opened Frame
  import opened SessionModel

  /** No resources, no bytes; one resource more adds its own size. */
  lemma TotalBytesInFull(t: Table, k: u64)
    ensures TotalBytes(map[]) == 0
    ensures k in t ==> TotalBytes(t) == t[k].size + TotalBytes(t - {k})
  {
    if k in t {
      TotalBytesWithout(t, k);
    }
  }

  lemma InvInFull(s: State)
    requires Inv(s)
    ensures |s.table| <= 64 && TotalBytes(s.table) <= 67_108_864 && 1 <= s.nextId
    ensures forall k :: k in s.table ==>
              var r := s.table[k];
              && r.sgpHandle == k && 1 <= k < s.nextId && 1 <= r.size <= 16_777_216
              && r.gpuHandle in s.live && s.live[r.gpuHandle] == r.size
    ensures forall j, k :: j in s.table && k in s.table && s.table[j].gpuHandle == s.table[k].gpuHandle ==> j == k
    ensures forall g :: g in s.live ==> exists k :: k in s.table && s.table[k].gpuHandle == g
  {
    assert forall g :: g in s.live ==> Backs(s.table, g);
  }

  /**
   A creation is admitted exactly within the four limits. The new resource has the counter's value for its handle, a
   device buffer of its own and the size asked for; the counter moves on by one.
   */
  lemma CreateInFull(limit: nat, s: State, size: u64, reply: Reply, t: State)
    requires Step(limit, s, Event(Create(size), reply), t)
    ensures reply.Created? <==>
              && 1 <= size <= 16_777_216 && |s.table| < 64 && TotalBytes(s.table) + size <= 67_108_864
              && s.nextId < 0xFFFF_FFFF_FFFF_FFFF
    ensures reply.Created? ==>
              && reply.resource.sgpHandle == s.nextId && reply.resource.size == size
              && reply.resource.gpuHandle !in s.live
              && t.table == s.table[s.nextId := reply.resource] && t.nextId == s.nextId + 1
              && t.live == s.live[reply.resource.gpuHandle := size] && t.handed == s.handed
    ensures !reply.Created? ==> t == s && reply == Rejected(if size == 0 then Payload else ResourceLimit)
  {
  }

  /** A destruction removes the handle's entry and frees its buffer, and nothing else; an unknown handle is named. */
  lemma DestroyInFull(limit: nat, s: State, handle: u64, reply: Reply, t: State)
    requires Inv(s) && Step(limit, s, Event(Destroy(handle), reply), t)
    ensures handle in s.table ==>
              && reply == Destroyed
              && t.table == s.table - {handle} && t.live == s.live - {s.table[handle].gpuHandle}
              && t.nextId == s.nextId && t.handed == s.handed
    ensures handle !in s.table ==> reply == Rejected(ResourceNotFound(handle)) && t == s
  {
  }

  /**
   The list the device is handed: command by command the guest's own, with every handle replaced by the buffer it stands
   for. Nothing else of the state changes.
   */
  lemma SubmitInFull(limit: nat, s: State, cmds: seq<SgpuCommand>, reply: Reply, t: State)
    requires Step(limit, s, Event(Submit(cmds), reply), t)
    ensures t == s.(handed := t.handed)
    ensures t.handed != s.handed <==>
              |cmds| <= limit && forall c <- cmds ::
                match c
                case CopyBuffer(src, dst, _) => src in s.table && dst in s.table
                case Present(buffer) => buffer in s.table
                case _ => true
    ensures t.handed != s.handed ==>
              && |t.handed| == |s.handed| + 1 && t.handed[..|s.handed|] == s.handed
              && |t.handed[|s.handed|]| == |cmds|
              && forall i :: 0 <= i < |cmds| ==>
                   var g := t.handed[|s.handed|][i];
                   match cmds[i]
                   case CopyBuffer(src, dst, size) =>
                     && src in s.table && dst in s.table
                     && g.CopyBuffer? && g.size == size
                     && g.src == s.table[src].gpuHandle && g.dst == s.table[dst].gpuHandle
                   case RenderClear(color) => g.RenderClear? && g.color == color
                   case ComputeDispatch(kernelId, grid, block) =>
                     g.ComputeDispatch? && g.kernelId == kernelId && g.grid == grid && g.block == block
                   case Present(buffer) => buffer in s.table && g.Present? && g.buffer == s.table[buffer].gpuHandle
  {
    if |cmds| <= limit {
      ResolvedInFull(s.table, cmds);
      if Resolved(s.table, cmds) {
        assert t.handed[..|s.handed|] == s.handed;
        assert forall i :: 0 <= i < |cmds| ==> Renames(s.table, cmds[i], t.handed[|s.handed|][i]);
      }
    }
  }

  lemma {:induction false} ResolvedInFull(t: Table, cmds: seq<SgpuCommand>)
    ensures Resolved(t, cmds) <==>
              forall c <- cmds ::
                match c
                case CopyBuffer(src, dst, _) => src in t && dst in t
                case Present(buffer) => buffer in t
                case _ => true
  {
    if cmds != [] {
      var n := |cmds| - 1;
      ResolvedInFull(t, cmds[..n]);
      var init, last := cmds[..n], HandlesOf(cmds[n]);
      assert cmds == init + [cmds[n]];
      assert cmds[n] in cmds && forall c <- init :: c in cmds;
      assert forall h :: h in Handles(cmds) <==> h in Handles(init) || h in last;
      if Resolved(t, cmds) {
        assert Resolved(t, init);
        assert last != [] ==> last[0] in last && last[|last| - 1] in last;
      }
    }
  }

  // ----- The first handle that does not resolve -----

  lemma NothingToResolve(t: Table, cmds: seq<SgpuCommand>)
    ensures Resolved(t, cmds[..0])
  {
  }

  lemma {:induction false} HandlesSnoc(cmds: seq<SgpuCommand>, c: SgpuCommand)
    ensures Handles(cmds + [c]) == Handles(cmds) + HandlesOf(c)
  {
    assert (cmds + [c])[..|cmds|] == cmds;
  }

  lemma {:induction false} HandlesStep(cmds: seq<SgpuCommand>, i: nat)
    requires i < |cmds|
    ensures Handles(cmds[..i + 1]) == Handles(cmds[..i]) + HandlesOf(cmds[i])
    ensures cmds[..i + 1] == cmds[..i] + [cmds[i]]
    ensures Handles(cmds[..i + 1]) <= Handles(cmds)
  {
    var upTo := cmds[..i + 1];
    assert upTo == cmds[..i] + [cmds[i]];
    assert Handles(upTo) == Handles(cmds[..i]) + HandlesOf(cmds[i]) by {
      HandlesSnoc(cmds[..i], cmds[i]);
    }
    assert Handles(upTo) <= Handles(cmds) by {
      HandlesPrefix(cmds, i + 1);
    }
  }

  /** Handle number `k` of command `i` is the first that fails. */
  lemma {:induction false} UnresolvedAt(t: Table, cmds: seq<SgpuCommand>, i: nat, k: nat)
    requires i < |cmds| && Resolved(t, cmds[..i])
    requires k < |HandlesOf(cmds[i])| && HandlesOf(cmds[i])[k] !in t
    requires forall j :: 0 <= j < k ==> HandlesOf(cmds[i])[j] in t
    ensures FirstUnresolved(t, cmds, HandlesOf(cmds[i])[k])
    ensures !Resolved(t, cmds)
  {
    HandlesStep(cmds, i);
    var before := Handles(cmds[..i]);
    var at := |before| + k;
    var all := Handles(cmds);
    assert all[..|before| + |HandlesOf(cmds[i])|] == before + HandlesOf(cmds[i]);
    assert all[at] == HandlesOf(cmds[i])[k];
    forall j | 0 <= j < at ensures all[j] in t {
      assert all[j] == (before + HandlesOf(cmds[i]))[j];
    }
  }

  lemma {:induction false} FirstFailure(t: Table, cmds: seq<SgpuCommand>) returns (i: nat, h: u64)
    requires !Resolved(t, cmds)
    ensures i < |cmds| && Resolved(t, cmds[..i]) && h !in t && FirstUnresolved(t, cmds, h)
    ensures match cmds[i]
            case CopyBuffer(src, dst, _) => h == src || (src in t && h == dst)
            case Present(buffer) => h == buffer
            case _ => false
  {
    hide FirstUnresolved;
    var n := |cmds| - 1;
    assert cmds == cmds[..n] + [cmds[n]];
    if Resolved(t, cmds[..n]) {
      i := n;
      h := HandlesOf(cmds[n])[0];
      if h in t {
        h := HandlesOf(cmds[n])[1];
        UnresolvedAt(t, cmds, n, 1);
      } else {
        UnresolvedAt(t, cmds, n, 0);
      }
    } else {
      i, h := FirstFailure(t, cmds[..n]);
      assert cmds[..n][..i] == cmds[..i];
      UnresolvedAt(t, cmds, i, if HandlesOf(cmds[i])[0] == h then 0 else 1);
    }
  }

  /**
   The handle that is reported: every command before some command resolves, and in that one it is the first handle that
   does not. A copy is asked for its source before its destination.
   */
  lemma FirstUnresolvedInFull(t: Table, cmds: seq<SgpuCommand>, h: u64)
    requires FirstUnresolved(t, cmds, h)
    ensures exists i :: 0 <= i < |cmds|
              && (forall c <- cmds[..i] ::
                   match c
                   case CopyBuffer(src, dst, _) => src in t && dst in t
                   case Present(buffer) => buffer in t
                   case _ => true)
              && match cmds[i]
                 case CopyBuffer(src, dst, _) => h !in t && (h == src || (src in t && h == dst))
                 case Present(buffer) => h !in t && h == buffer
                 case _ => false
  {
    FirstUnresolvedExact(t, cmds);
    var i, first := FirstFailure(t, cmds);
    ResolvedInFull(t, cmds[..i]);
    assert first == h;
  }

  /** What a submission answers: the number of commands, or why the list was not executed. */
  lemma SubmitAnswerInFull(limit: nat, s: State, cmds: seq<SgpuCommand>, reply: Reply, t: State)
    requires Step(limit, s, Event(Submit(cmds), reply), t)
    ensures reply == Completed(|cmds|) || reply.Rejected?
    ensures reply == Completed(|cmds|) ==> t.handed != s.handed
    ensures |cmds| > limit <==> reply == Rejected(Payload)
    ensures reply.Rejected? && |cmds| <= limit ==>
              if t.handed != s.handed then reply.error.Gpu?
              else reply.error.ResourceNotFound? && FirstUnresolved(s.table, cmds, reply.error.handle)
    ensures reply.Rejected? && reply.error.ResourceNotFound? ==>
              var h := reply.error.handle;
              exists i :: 0 <= i < |cmds|
                && (forall c <- cmds[..i] ::
                     match c
                     case CopyBuffer(src, dst, _) => src in s.table && dst in s.table
                     case Present(buffer) => buffer in s.table
                     case _ => true)
                && match cmds[i]
                   case CopyBuffer(src, dst, _) => h !in s.table && (h == src || (src in s.table && h == dst))
                   case Present(buffer) => h !in s.table && h == buffer
                   case _ => false
  {
    if reply.Rejected? && reply.error.ResourceNotFound? {
      FirstUnresolvedInFull(s.table, cmds, reply.error.handle);
    }
  }

  /** One present command: the device is handed it alone, for the buffer the handle stands for. */
  lemma PresentInFull(limit: nat, s: State, h: u64, reply: Reply, t: State)
    requires Step(limit, s, Event(Submit([Present(h)]), reply), t)
    ensures limit == 0 ==> reply == Rejected(Payload) && t == s
    ensures limit > 0 && h !in s.table ==> reply == Rejected(ResourceNotFound(h)) && t == s
    ensures limit > 0 && h in s.table ==>
              && t == s.(handed := s.handed + [[Present(s.table[h].gpuHandle)]])
              && (reply == Completed(1) || (reply.Rejected? && reply.error.Gpu?))
  {
    var cmds: seq<SgpuCommand> := [Present(h)];
    assert cmds[0] in cmds;
    hide Step, FirstUnresolved;
    SubmitInFull(limit, s, cmds, reply, t);
    SubmitAnswerInFull(limit, s, cmds, reply, t);
    if limit > 0 && h in s.table {
      assert forall c <- cmds :: c == Present(h);
      var given := t.handed[|s.handed|];
      assert given[0].Present? && given[0].buffer == s.table[h].gpuHandle && cmds[0] == Present(h);
      assert given == [Present(s.table[h].gpuHandle)];
      assert t.handed == t.handed[..|s.handed|] + [given];
    }
  }
}
