/** Searching for loaded programs and maps by name or tag: lib/bpftool/src/common.c. The kernel is
    an adversary: apart from handing out rising ids and unused descriptors, it answers anything. */
module FdSearch {
  import opened Common

  datatype Info = Info(id: u32, name: string, tag: seq<int>)
  datatype Handle = ById(id: u32) | ByTag(tag: seq<int>) | ByName(name: string) | Pinned(path: string) | Malformed

  // What the kernel has been asked, and has answered.
  datatype Log = Log(listed: seq<u32>, told: seq<Info>, asked: seq<u32>, ended: seq<u32>) {
    // Asked for the object after `id`, it has listed and described one.
    function Listing(id: u32, info: Info): Log {
      Log(listed + [info.id], told + [info], asked + [id], ended)
    }

    // ... or has said that there is none.
    function Ending(id: u32): Log {
      Log(listed, told, asked + [id], ended + [id])
    }
  }

  class Kernel {
    var open: map<int, int>          // the open descriptors and the objects they refer to
    ghost var listed: seq<u32>       // the ids handed out
    ghost var told: seq<Info>        // the descriptions handed out
    ghost var failures: nat          // the requests that were refused
    ghost var granted: nat           // the requests for memory that were not
    ghost var handed: nat            // the descriptors handed out by id
    ghost var asked: seq<u32>        // the ids after which the next one was asked for
    ghost var ended: seq<u32>        // the ids after which the kernel said that there are no more

    ghost function History(): Log
      reads this
    {
      Log(listed, told, asked, ended)
    }

    constructor ()
      ensures open == map[] && listed == [] && told == [] && failures == 0 && asked == ended == []
    {
      open, listed, told, failures, asked, ended := map[], [], [], 0, [], [];
    }

    // BPF_*_GET_NEXT_ID: a greater id, the end of the list, or an error.
    method GetNextId(id: u32) returns (err: bool, noEntry: bool, next: u32)
      modifies this`listed, this`failures, this`asked, this`ended
      ensures !err ==> id < next && listed == old(listed) + [next]
      ensures err ==> listed == old(listed)
      ensures asked == old(asked) + [id]
      ensures ended == if err && noEntry then old(ended) + [id] else old(ended)
      ensures failures == old(failures) + if err && !noEntry then 1 else 0
    {
      asked := asked + [id];
      err, noEntry, next := *, *, id;
      if id == 0xffff_ffff {
        err := true;
      }
      if !err {
        next := *;
        if next <= id {
          next := id + 1;
        }
        listed := listed + [next];
      } else if noEntry {
        ended := ended + [id];
      } else {
        failures := failures + 1;
      }
    }

    // BPF_*_GET_FD_BY_ID
    method GetFdById(id: u32) returns (fd: int)
      modifies this`open, this`failures, this`handed
      ensures handed == old(handed) + if fd < 0 then 0 else 1
      ensures fd < 0 ==> open == old(open)
      ensures fd >= 0 ==> fd !in old(open) && open == old(open)[fd := id]
      ensures failures == old(failures) + if fd < 0 then 1 else 0
    {
      fd := *;
      if fd < 0 || fd in open {
        fd := -1;
        failures := failures + 1;
      } else {
        open := open[fd := id];
        handed := handed + 1;
      }
    }

    // BPF_OBJ_GET_INFO_BY_FD
    method GetInfoByFd(fd: int) returns (err: bool, info: Info)
      requires fd in open
      modifies this`told, this`failures
      requires 0 <= open[fd] < 0x1_0000_0000
      ensures !err ==> info.id == open[fd] && told == old(told) + [info]
      ensures err ==> told == old(told)
      ensures failures == old(failures) + if err then 1 else 0
    {
      err, info := *, *;
      info := info.(id := open[fd]);
      if !err {
        told := told + [info];
      } else {
        failures := failures + 1;
      }
    }

    // BPF_OBJ_GET
    method GetPinned(path: string) returns (fd: int)
      modifies this`open, this`failures, this`handed
      ensures failures == old(failures) + if fd < 0 then 1 else 0
      ensures fd < 0 ==> open == old(open)
      ensures fd >= 0 ==> fd !in old(open) && fd in open && open == old(open)[fd := open[fd]]
    {
      var id: u32 := *;
      fd := GetFdById(id);
    }

    // malloc and realloc: memory is one more thing that may run out.
    method Allocate() returns (ok: bool)
      modifies this`failures, this`granted
      ensures failures == old(failures) + if ok then 0 else 1
      ensures granted == old(granted) + if ok then 1 else 0
    {
      ok := *;
      if ok {
        granted := granted + 1;
      } else {
        failures := failures + 1;
      }
    }

    method Close(fd: int)
      requires fd in open
      modifies this`open
      ensures open == old(open) - {fd}
    {
      open := open - {fd};
    }
  }

  // The search holds `fds`, which refer to `ids`, on top of what was open before.
  ghost predicate Holds(now: map<int, int>, was: map<int, int>, fds: seq<int>, ids: seq<int>) {
    && |fds| == |ids|
    && (forall i :: 0 <= i < |fds| ==> fds[i] >= 0 && fds[i] !in was && fds[i] in now && now[fds[i]] == ids[i])
    && (forall i, j :: 0 <= i < j < |fds| ==> fds[i] != fds[j])
    && was.Keys <= now.Keys && (forall f :: f in was ==> now[f] == was[f])
    && (forall f :: f in now ==> f in was || f in fds)
  }

  lemma HoldsOneMore(was: map<int, int>, now: map<int, int>, fds: seq<int>, ids: seq<int>, fd: int, id: int)
    requires Holds(now, was, fds, ids) && fd >= 0 && fd !in now
    ensures Holds(now[fd := id], was, fds + [fd], ids + [id])
    ensures now[fd := id] - {fd} == now
  {
    forall f | f in now[fd := id]
      ensures f in was || f in fds + [fd]
    {
      assert f != fd ==> f in now;
    }
  }

  // Which descriptions the search is for.
  predicate Matches(info: Info, handle: Handle) {
    match handle
    case ByTag(tag) => info.tag == tag
    case ByName(name) => info.name == name
    case _ => false
  }

  function MatchingIds(told: seq<Info>, handle: Handle): seq<int> {
    if told == [] then []
    else MatchingIds(told[..|told| - 1], handle) +
         if Matches(told[|told| - 1], handle) then [told[|told| - 1].id] else []
  }

  /** The matches are the described objects that the handle names: by their whole tag or whole name. */
  lemma {:induction false} MatchingIdsExact(told: seq<Info>, handle: Handle, id: int)
    ensures id in MatchingIds(told, handle) <==>
            exists info :: info in told && info.id == id && (handle == ByTag(info.tag) || handle == ByName(info.name))
    decreases |told|
  {
    if told == [] {
    } else {
      MatchingIdsExact(told[..|told| - 1], handle, id);
      assert told == told[..|told| - 1] + [told[|told| - 1]];
    }
  }

  // Every object that was listed has been described, in the order of the ids.
  ghost predicate Surveyed(listed: seq<u32>, told: seq<Info>) {
    && |listed| == |told|
    && (forall i :: 0 <= i < |told| ==> told[i].id == listed[i])
    && (forall i, j :: 0 <= i < j < |listed| ==> listed[i] < listed[j])
  }

  // The id to go on from: the last one listed, or 0.
  function LastId(listed: seq<u32>): u32 { if listed == [] then 0 else listed[|listed| - 1] }

  // Since `was`, these objects were listed and described, the last of them being `id`.
  ghost predicate SurveyedTo(was: Log, now: Log, listed: seq<u32>, told: seq<Info>, id: u32) {
    && Surveyed(listed, told) && id == LastId(listed)
    && now.listed == was.listed + listed && now.told == was.told + told
    && now.asked == was.asked + ([0] + listed)[..|listed|] && now.ended == was.ended
  }

  /** The kernel's whole list has been gone through: it was asked for the first object and for the one
      after each it listed, and said after the last that there are no more; and every object it listed
      was described. */
  ghost predicate SurveyedAll(was: Log, now: Log) {
    && |was.told| <= |now.told| && |was.listed| <= |now.listed|
    && Surveyed(now.listed[|was.listed|..], now.told[|was.told|..])
    && now.asked == was.asked + ([0] + now.listed[|was.listed|..])
    && now.ended == was.ended + [LastId(now.listed[|was.listed|..])]
  }

  lemma SurveyedOneMore(was: Log, now: Log, listed: seq<u32>, told: seq<Info>, id: u32, info: Info)
    requires SurveyedTo(was, now, listed, told, id) && id < info.id
    ensures SurveyedTo(was, now.Listing(id, info), listed + [info.id], told + [info], info.id)
  {
    assert ([0] + listed)[..|listed|] + [id] == [0] + listed == ([0] + (listed + [info.id]))[..|listed| + 1];
  }

  lemma SurveyedToEnd(was: Log, now: Log, listed: seq<u32>, told: seq<Info>, id: u32)
    requires SurveyedTo(was, now, listed, told, id)
    ensures now.Ending(id).told[|was.told|..] == told && SurveyedAll(was, now.Ending(id))
  {
    var next := now.Ending(id);
    assert next.listed[|was.listed|..] == listed && next.told[|was.told|..] == told;
    assert ([0] + listed)[..|listed|] + [id] == [0] + listed;
  }

  lemma HoldsOneLess(now: map<int, int>, was: map<int, int>, fds: seq<int>, ids: seq<int>)
    requires Holds(now, was, fds, ids) && |fds| > 0
    ensures var n := |fds| - 1; fds[n] in now && Holds(now - {fds[n]}, was, fds[..n], ids[..n])
  {
    var n := |fds| - 1;
    assert fds == fds[..n] + [fds[n]];
  }

  lemma SameMap(a: map<int, int>, b: map<int, int>)
    requires a.Keys == b.Keys && forall f :: f in b ==> a[f] == b[f]
    ensures a == b
  {
    assert forall f | f in b.Keys :: a[f] == b[f];
  }

  lemma HoldsNone(now: map<int, int>, was: map<int, int>)
    requires Holds(now, was, [], [])
    ensures now == was
  {
    forall f | f in now
      ensures f in was.Keys
    {
      assert f in was || f in [];
    }
    SameMap(now, was);
  }

  /** What a search promises: it fails only when a request was refused; on success it has gone through
      the kernel's whole list, and the caller holds one descriptor for each match, in the order of the
      ids; on failure nothing. */
  twostate predicate Found(k: Kernel, handle: Handle, nb: int, fds: seq<int>)
    reads k
  {
    && (nb < 0 ==> k.open == old(k.open) && k.failures > old(k.failures))
    && (nb >= 0 ==>
          && nb == |fds| && k.failures == old(k.failures) && SurveyedAll(old(k.History()), k.History())
          && Holds(k.open, old(k.open), fds, MatchingIds(k.told[|old(k.told)|..], handle)))
  }

  // The error path: every descriptor found so far is closed.
  method CloseFds(k: Kernel, fds: seq<int>, ghost was: map<int, int>, ghost ids: seq<int>)
    requires Holds(k.open, was, fds, ids)
    modifies k`open
    ensures k.open == was
  {
    var nbFds := |fds|;
    assert fds[..nbFds] == fds && ids[..nbFds] == ids;
    while nbFds > 0
      invariant 0 <= nbFds <= |fds| == |ids| && Holds(k.open, was, fds[..nbFds], ids[..nbFds])
    {
      HoldsOneLess(k.open, was, fds[..nbFds], ids[..nbFds]);
      nbFds := nbFds - 1;
      assert fds[..nbFds + 1][..nbFds] == fds[..nbFds] && ids[..nbFds + 1][..nbFds] == ids[..nbFds];
      k.Close(fds[nbFds]);
    }
    HoldsNone(k.open, was);
  }

  lemma MatchingOneMore(told: seq<Info>, info: Info, handle: Handle)
    ensures MatchingIds(told + [info], handle) == MatchingIds(told, handle) + if Matches(info, handle) then [info.id] else []
  {
    assert (told + [info])[..|told|] == told;
  }

  datatype Step = End | Failed | Object(fd: int, info: Info)

  // The next object: its id, a descriptor for it, its description.
  method OpenNext(k: Kernel, id: u32) returns (step: Step)
    modifies k
    ensures !step.Object? ==> k.open == old(k.open)
    ensures if step.Failed? then k.failures > old(k.failures) else k.failures == old(k.failures)
    ensures step.End? ==> k.History() == old(k.History()).Ending(id)
    ensures step.Object? ==>
              && id < step.info.id && step.fd >= 0 && step.fd !in old(k.open)
              && k.History() == old(k.History()).Listing(id, step.info)
              && k.open == old(k.open)[step.fd := step.info.id]
  {
    var err, noEntry, next := k.GetNextId(id);
    if err {
      return if noEntry then End else Failed;
    }
    var fd := k.GetFdById(next);
    if fd < 0 {
      return Failed;
    }
    var failed, info := k.GetInfoByFd(fd);
    if failed {
      k.Close(fd);
      return Failed;
    }
    step := Object(fd, info);
  }

  // A match is looked up again when the caller wants other options, and then kept if there is room.
  method KeepMatch(k: Kernel, fd: int, id: u32, sameOpts: bool, isFirst: bool) returns (kept: int)
    requires fd >= 0 && fd in k.open && k.open[fd] == id
    modifies k`open, k`failures, k`granted, k`handed
    ensures kept >= 0 ==> k.handed == old(k.handed) + if sameOpts then 0 else 1
    ensures kept >= 0 ==> k.granted == old(k.granted) + if isFirst then 0 else 1
    ensures sameOpts && isFirst ==> kept == fd
    ensures if kept < 0 then k.failures > old(k.failures) else k.failures == old(k.failures)
    ensures kept < 0 ==> k.open == old(k.open) - {fd}
    ensures kept >= 0 ==> kept !in old(k.open) - {fd} && k.open == (old(k.open) - {fd})[kept := id]
  {
    kept := fd;
    if !sameOpts {
      k.Close(fd);
      kept := k.GetFdById(id);
      if kept < 0 {
        return;
      }
    }
    if !isFirst {
      var room := k.Allocate();
      if !room {
        k.Close(kept);
        return -1;
      }
    }
  }

  /** prog_fd_by_nametag and map_fd_by_name. The map search looks a match up again when the caller
      wants other options than the read-only ones; the program search never does. */
  method FdByNametag(k: Kernel, handle: Handle, sameOpts: bool) returns (nb: int, fds: seq<int>)
    requires handle.ByTag? || handle.ByName?
    modifies k
    ensures Found(k, handle, nb, fds)
  {
    var id: u32 := 0;
    fds := [];
    ghost var listed: seq<u32>, told: seq<Info> := [], [];
    while true
      invariant k.failures == old(k.failures)
      invariant SurveyedTo(old(k.History()), k.History(), listed, told, id)
      invariant Holds(k.open, old(k.open), fds, MatchingIds(told, handle))
      decreases 0x1_0000_0000 - id
    {
      ghost var ids, was, log := MatchingIds(told, handle), k.open, k.History();
      var step := OpenNext(k, id);
      if step.Failed? {
        CloseFds(k, fds, old(k.open), ids);
        return -1, fds;
      }
      if step.End? {
        SurveyedToEnd(old(k.History()), log, listed, told, id);
        return |fds|, fds;
      }
      var fd := step.fd;
      SurveyedOneMore(old(k.History()), log, listed, told, id, step.info);
      id := step.info.id;
      HoldsOneMore(old(k.open), was, fds, ids, fd, id);
      MatchingOneMore(told, step.info, handle);
      listed, told := listed + [id], told + [step.info];
      if !Matches(step.info, handle) {
        k.Close(fd);
        continue;
      }
      fd := KeepMatch(k, fd, id, sameOpts, fds == []);
      if fd < 0 {
        CloseFds(k, fds, old(k.open), ids);
        return -1, fds;
      }
      HoldsOneMore(old(k.open), was, fds, ids, fd, id);
      fds := fds + [fd];
    }
  }

  const MAX_PROG_FULL_NAME := 128
  const BPF_OBJ_NAME_LEN := 16

  // Handles that are turned down without asking the kernel; only programs have tags.
  predicate IsRefused(handle: Handle, isMap: bool) {
    match handle
    case ByTag(_) => isMap
    case ByName(name) => |name| > (if isMap then BPF_OBJ_NAME_LEN else MAX_PROG_FULL_NAME) - 1
    case Malformed => true
    case _ => false
  }

  /** Maps have no tags and names of at most 15 characters, programs of at most 127. */
  lemma RefusedHandles(handle: Handle, isMap: bool)
    ensures IsRefused(handle, isMap) <==>
            handle == Malformed || (handle.ByTag? && isMap) || (handle.ByName? && |handle.name| > if isMap then 15 else 127)
  {
  }

  // What parsing a handle promises for every kind of handle.
  twostate predicate Parsed(k: Kernel, handle: Handle, isMap: bool, nb: int, fds: seq<int>, ids: seq<int>)
    reads k
  {
    && (nb < 0 ==> k.open == old(k.open) && (k.failures > old(k.failures) || IsRefused(handle, isMap)))
    && (nb >= 0 ==>
          && nb == |fds| && !IsRefused(handle, isMap) && k.failures == old(k.failures) && Holds(k.open, old(k.open), fds, ids)
          && match handle
             case ById(id) => ids == [id]
             case Pinned(_) => nb == 1
             case Malformed => false
             case _ => Found(k, handle, nb, fds) && ids == MatchingIds(k.told[|old(k.told)|..], handle))
  }

  /** prog_parse_fds and map_parse_fds */
  method ParseFds(k: Kernel, handle: Handle, isMap: bool, sameOpts: bool) returns (nb: int, fds: seq<int>, ghost ids: seq<int>)
    modifies k
    ensures Parsed(k, handle, isMap, nb, fds, ids)
  {
    nb, fds, ids := -1, [], [];
    match handle {
      case ById(id) =>
        var fd := k.GetFdById(id);
        if fd >= 0 {
          nb, fds, ids := 1, [fd], [id];
        }
      case ByTag(tag) =>
        if !isMap {
          nb, fds := FdByNametag(k, handle, true);
          if nb >= 0 {
            ids := MatchingIds(k.told[|old(k.told)|..], handle);
          }
        }
      case ByName(name) =>
        if |name| > (if isMap then BPF_OBJ_NAME_LEN else MAX_PROG_FULL_NAME) - 1 {
          return;
        }
        nb, fds := FdByNametag(k, handle, !isMap || sameOpts);
        if nb >= 0 {
          ids := MatchingIds(k.told[|old(k.told)|..], handle);
        }
      case Pinned(path) =>
        var fd := k.GetPinned(path);
        if fd >= 0 {
          nb, fds, ids := 1, [fd], [k.open[fd]];
        }
      case Malformed =>
    }
  }

  /** prog_parse_fd and map_parse_fd: exactly one descriptor is open when one is returned, and none
      otherwise; a name or tag stands for the one object it matches.  It fails only when a request was
      refused, the handle is not one, or the number of matches is not one. */
  method ParseFd(k: Kernel, handle: Handle, isMap: bool, sameOpts: bool) returns (fd: int)
    modifies k
    ensures fd < 0 ==> k.open == old(k.open)
    ensures fd < 0 && !IsRefused(handle, isMap) && k.failures == old(k.failures) ==>
              && (handle.ByTag? || handle.ByName?) && SurveyedAll(old(k.History()), k.History())
              && |MatchingIds(k.told[|old(k.told)|..], handle)| != 1
    ensures fd >= 0 ==> fd !in old(k.open) && fd in k.open && k.open == old(k.open)[fd := k.open[fd]]
    ensures fd >= 0 && handle.ById? ==> k.open[fd] == handle.id
    ensures fd >= 0 && (handle.ByTag? || handle.ByName?) ==>
              SurveyedAll(old(k.History()), k.History()) && MatchingIds(k.told[|old(k.told)|..], handle) == [k.open[fd]]
  {
    var room := k.Allocate();
    if !room {
      return -1;
    }
    var nbFds, fds, ids := ParseFds(k, handle, isMap, sameOpts);
    if nbFds != 1 {
      if nbFds > 1 {
        CloseFds(k, fds, old(k.open), ids);
      } else if nbFds == 0 {
        HoldsNone(k.open, old(k.open));
      }
      return -1;
    }
    HoldsOne(k.open, old(k.open), fds, ids);
    fd := fds[0];
  }

  lemma HoldsOne(now: map<int, int>, was: map<int, int>, fds: seq<int>, ids: seq<int>)
    requires Holds(now, was, fds, ids) && |fds| == 1
    ensures now == was[fds[0] := ids[0]] && ids == [now[fds[0]]]
  {
    forall f | f in now
      ensures f in was.Keys + {fds[0]}
    {
      assert f in was || f in fds;
    }
    assert now.Keys == was.Keys + {fds[0]};
    SameMap(now, was[fds[0] := ids[0]]);
  }
}
