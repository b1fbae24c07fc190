/** The file-descriptor registry of protobuf-c-dispatch.c: a dense array, its reverse map, and a log of changes. */
module Dispatch {
  datatype Flag = Readable | Writable

  type Events = set<Flag>

  datatype Callback = Callback(func: nat, data: nat)

  // The entry of a descriptor; an index of -1 is none.
  datatype FdMap = FdMap(notifyDesiredIndex: int, changeIndex: int, closedSinceNotifyStarted: bool)

  datatype Notify = Notify(fd: nat, events: Events)

  datatype Change = Change(fd: nat, events: Events, oldEvents: Events)

  // What is wanted of a descriptor.
  datatype Want = Want(events: Events, callback: Callback)

  // ---- the array and the map are inverse to each other ----

  // The entry of fd names the place in the array that holds what is wanted of it.
  ghost predicate EntryOk(fdMap: seq<FdMap>, notifies: seq<Notify>, callbacks: seq<Callback>, n: nat,
                          wanted: map<nat, Want>, fd: nat)
  {
    && fd < |fdMap|
    && var i := fdMap[fd].notifyDesiredIndex;
       if i == -1 then fd !in wanted
       else 0 <= i < n && i < |notifies| && i < |callbacks| && notifies[i].fd == fd
            && fd in wanted && wanted[fd] == Want(notifies[i].events, callbacks[i]) && wanted[fd].events != {}
  }

  // A place in the array belongs to the descriptor that it names.
  ghost predicate PlaceOk(fdMap: seq<FdMap>, notifies: seq<Notify>, i: nat)
  {
    i < |notifies| && notifies[i].fd < |fdMap| && fdMap[notifies[i].fd].notifyDesiredIndex == i
  }

  ghost predicate IndexOk(fdMap: seq<FdMap>, notifies: seq<Notify>, callbacks: seq<Callback>, n: nat,
                          wanted: map<nat, Want>)
  {
    && n <= |notifies| == |callbacks| && |notifies| > 0
    && (forall fd :: fd in wanted ==> fd < |fdMap|)
    && (forall fd {:trigger EntryOk(fdMap, notifies, callbacks, n, wanted, fd)} :: 0 <= fd < |fdMap| ==>
         EntryOk(fdMap, notifies, callbacks, n, wanted, fd))
    && forall i {:trigger PlaceOk(fdMap, notifies, i)} :: 0 <= i < n ==> PlaceOk(fdMap, notifies, i)
  }

  // ---- the log of changes ----

  function Interest(wanted: map<nat, Want>, fd: nat): Events
  {
    if fd in wanted then wanted[fd].events else {}
  }

  // The change entry of a descriptor leads from the interest at the last clear to the present one; a descriptor
  // without an entry has the interest that it had.
  ghost predicate LogOk(fdMap: seq<FdMap>, changes: seq<Change>, n: nat, wanted: map<nat, Want>, was: map<nat, Want>,
                        fd: nat)
  {
    && fd < |fdMap|
    && var c := fdMap[fd].changeIndex;
       if c == -1 then Interest(wanted, fd) == Interest(was, fd)
       else 0 <= c < n && c < |changes| && changes[c] == Change(fd, Interest(wanted, fd), Interest(was, fd))
  }

  ghost predicate ChangeAt(fdMap: seq<FdMap>, changes: seq<Change>, i: nat)
  {
    i < |changes| && changes[i].fd < |fdMap| && fdMap[changes[i].fd].changeIndex == i
  }

  ghost predicate ChangesOk(fdMap: seq<FdMap>, changes: seq<Change>, n: nat, wanted: map<nat, Want>,
                            was: map<nat, Want>)
  {
    && n <= |changes|
    && (forall fd {:trigger LogOk(fdMap, changes, n, wanted, was, fd)} :: 0 <= fd < |fdMap| ==>
         LogOk(fdMap, changes, n, wanted, was, fd))
    && (forall i {:trigger ChangeAt(fdMap, changes, i)} :: 0 <= i < n ==> ChangeAt(fdMap, changes, i))
    && forall fd :: fd in was ==> fd < |fdMap|
  }

  // What is true of the log in any case: indices stay inside of what is allocated.
  ghost predicate InBounds(fdMap: seq<FdMap>, changes: seq<Change>, n: nat)
  {
    && |fdMap| > 0 && n <= |changes| && |changes| > 0
    && (forall fd :: 0 <= fd < |fdMap| ==> -1 <= fdMap[fd].changeIndex < |changes|)
    && forall i :: 0 <= i < |changes| ==> changes[i].fd < |fdMap|
  }

  // Applying the logged changes to an interest.
  function Applied(changes: seq<Change>, fd: nat, before: Events): Events
  {
    if changes == [] then before
    else if changes[|changes| - 1].fd == fd then changes[|changes| - 1].events
    else Applied(changes[..|changes| - 1], fd, before)
  }

  // The log as a poller reads it: one entry at most for a descriptor, from the interest at the last clear, and
  // applying all of it gives the present interest of every descriptor.
  lemma {:induction false} LogTells(fdMap: seq<FdMap>, changes: seq<Change>, n: nat, wanted: map<nat, Want>,
                                    was: map<nat, Want>, fd: nat)
    requires ChangesOk(fdMap, changes, n, wanted, was) && forall p :: p in wanted ==> p < |fdMap|
    ensures Applied(changes[..n], fd, Interest(was, fd)) == Interest(wanted, fd)
    ensures forall i, j :: 0 <= i < j < n ==> changes[i].fd != changes[j].fd
    ensures forall i :: 0 <= i < n ==> changes[i].oldEvents == Interest(was, changes[i].fd)
  {
    forall i | 0 <= i < n
      ensures changes[i] == Change(changes[i].fd, Interest(wanted, changes[i].fd), Interest(was, changes[i].fd))
    {
      assert ChangeAt(fdMap, changes, i) && LogOk(fdMap, changes, n, wanted, was, changes[i].fd);
    }
    forall i, j | 0 <= i < j < n ensures changes[i].fd != changes[j].fd {
      assert ChangeAt(fdMap, changes, i) && ChangeAt(fdMap, changes, j);
    }
    if fd < |fdMap| { assert LogOk(fdMap, changes, n, wanted, was, fd); }
    AppliedTo(changes[..n], fd, Interest(was, fd), Interest(wanted, fd));
  }

  lemma {:induction false} AppliedTo(changes: seq<Change>, fd: nat, before: Events, after: Events)
    requires forall i :: 0 <= i < |changes| && changes[i].fd == fd ==> changes[i].events == after
    requires (forall i :: 0 <= i < |changes| ==> changes[i].fd != fd) ==> before == after
    ensures Applied(changes, fd, before) == after
  {
    if changes != [] && changes[|changes| - 1].fd != fd {
      AppliedTo(changes[..|changes| - 1], fd, before, after);
    }
  }

  // The descriptors that have an entry in the log, in the order of their entries.
  function Fds(changes: seq<Change>): (r: seq<nat>)
    ensures |r| == |changes|
  {
    seq(|changes|, i requires 0 <= i < |changes| => changes[i].fd)
  }

  lemma LoggedFds(fdMap: seq<FdMap>, changes: seq<Change>, n: nat, wanted: map<nat, Want>, was: map<nat, Want>, fd: nat)
    requires ChangesOk(fdMap, changes, n, wanted, was)
    ensures var log := Fds(changes[..n]);
      && (fd in log <==> fd < |fdMap| && fdMap[fd].changeIndex != -1)
      && (fd in log ==> 0 <= fdMap[fd].changeIndex < n && log[fdMap[fd].changeIndex] == fd)
      && (forall i, j :: 0 <= i < j < n ==> log[i] != log[j])
  {
    var log := Fds(changes[..n]);
    forall i | 0 <= i < n ensures log[i] < |fdMap| && fdMap[log[i]].changeIndex == i {
      assert ChangeAt(fdMap, changes, i);
    }
    if fd < |fdMap| {
      assert LogOk(fdMap, changes, n, wanted, was, fd);
      assert fdMap[fd].changeIndex != -1 ==> log[fdMap[fd].changeIndex] == fd;
    }
  }

  // What a watch and a close do to the log.
  function Noted(log: seq<nat>, fd: nat): seq<nat>
  {
    if fd in log then log else log + [fd]
  }

  function Dropped(log: seq<nat>, fd: nat): seq<nat>
  {
    if fd in log then log[..|log| - 1] else log
  }

  // A descriptor that has no entry in the log, or the last one, can be closed.
  predicate SafeToClose(log: seq<nat>, fd: nat)
  {
    fd in log ==> log[|log| - 1] == fd
  }

  lemma NotedOne(fdMap: seq<FdMap>, changes: seq<Change>, n: nat, wanted: map<nat, Want>, was: map<nat, Want>,
                 changes': seq<Change>, n': nat, fd: nat)
    requires ChangesOk(fdMap, changes, n, wanted, was) && fd < |fdMap| && n' <= |changes'|
    requires var c := fdMap[fd].changeIndex;
             if c == -1 then
               n' == n + 1 <= |changes'| && changes'[n].fd == fd && forall i :: 0 <= i < n ==> changes'[i] == changes[i]
             else
               n' == n && |changes'| == |changes| && 0 <= c < n && changes'[c].fd == fd
               && forall i :: 0 <= i < n && i != c ==> changes'[i] == changes[i]
    ensures Fds(changes'[..n']) == Noted(Fds(changes[..n]), fd)
  {
    LoggedFds(fdMap, changes, n, wanted, was, fd);
  }

  class Registry {
    var fdMap: seq<FdMap>
    var notifiesDesired: seq<Notify>
    var callbacks: seq<Callback>
    var nNotifiesDesired: nat
    var changes: seq<Change>
    var nChanges: nat
    // what the callers want, and what they wanted when the log was last cleared
    ghost var wanted: map<nat, Want>
    ghost var cleared: map<nat, Want>

    ghost predicate Indexed()
      reads this
    {
      IndexOk(fdMap, notifiesDesired, callbacks, nNotifiesDesired, wanted) && InBounds(fdMap, changes, nChanges)
    }

    ghost predicate Logged()
      reads this
    {
      ChangesOk(fdMap, changes, nChanges, wanted, cleared)
    }

    ghost function Log(): (log: seq<nat>)
      requires nChanges <= |changes|
      reads this`changes, this`nChanges
      ensures |log| == nChanges
    {
      Fds(changes[..nChanges])
    }

    // What the assertions of protobuf_c_dispatch_clear_changes ask for.
    ghost predicate Placed()
      reads this`fdMap, this`changes, this`nChanges
    {
      forall i {:trigger ChangeAt(fdMap, changes, i)} :: 0 <= i < nChanges ==> ChangeAt(fdMap, changes, i)
    }

    // protobuf_c_dispatch_fd_closed looks at the last entry of the log if the descriptor has an index into it.
    ghost predicate CanClose(fd: nat)
      reads this`fdMap, this`nChanges
    {
      fd < |fdMap| && fdMap[fd].changeIndex != -1 ==> nChanges > 0
    }

    // protobuf_c_dispatch_new
    constructor ()
      ensures Indexed() && Logged() && wanted == map[] && cleared == map[] && Log() == []
    {
      fdMap := seq(16, _ => FdMap(-1, -1, true));
      notifiesDesired, callbacks := seq(8, _ => Notify(0, {})), seq(8, _ => Callback(0, 0));
      changes := seq(8, _ => Change(0, {}, {}));
      nNotifiesDesired, nChanges, wanted, cleared := 0, 0, map[], map[];
    }

    // enlarge_fd_map, if the descriptor is beyond the map
    method ForceFdMap(fd: nat)
      requires Indexed()
      modifies this`fdMap
      ensures Indexed() && (old(Logged()) ==> Logged())
      ensures fd < |fdMap| && old(fdMap) <= fdMap
      ensures forall p :: |old(fdMap)| <= p < |fdMap| ==>
        fdMap[p].notifyDesiredIndex == -1 && fdMap[p].changeIndex == -1
    {
      if fd >= |fdMap| {
        var newSize := |fdMap| * 2;
        while fd >= newSize
          invariant newSize >= 2 * |fdMap| > 0
        {
          newSize := newSize * 2;
        }
        var more := seq(newSize - |fdMap|, _ => FdMap(-1, -1, true));
        MapGrows(fdMap, more, notifiesDesired, callbacks, nNotifiesDesired, wanted);
        if Logged() { LogGrows(fdMap, more, changes, nChanges, wanted, cleared); }
        fdMap := fdMap + more;
      }
    }

    // ---- the dense array ----

    // allocate_notifies_desired_index
    method AllocateNotifiesDesiredIndex() returns (rv: nat)
      requires Indexed()
      modifies this`notifiesDesired, this`callbacks
      ensures Indexed() && (old(Logged()) ==> Logged()) && rv == nNotifiesDesired < |notifiesDesired|
    {
      rv := nNotifiesDesired;
      if rv == |notifiesDesired| {
        var n := notifiesDesired + seq(|notifiesDesired|, _ => Notify(0, {}));
        var c := callbacks + seq(|callbacks|, _ => Callback(0, 0));
        ArrayGrows(fdMap, notifiesDesired, callbacks, nNotifiesDesired, wanted, n, c);
        notifiesDesired, callbacks := n, c;
      }
    }

    // What is wanted of a descriptor is put into the array, at a new place or at the one that it has.
    method SetWanted(fd: nat, events: Events, callback: Callback) returns (oldEvents: Events)
      requires Indexed() && fd < |fdMap| && events != {}
      modifies this`fdMap, this`notifiesDesired, this`callbacks, this`nNotifiesDesired, this`wanted
      ensures Indexed() && wanted == old(wanted)[fd := Want(events, callback)]
      ensures oldEvents == Interest(old(wanted), fd) && SameChanges(old(fdMap), fdMap)
    {
      assert EntryOk(fdMap, notifiesDesired, callbacks, nNotifiesDesired, wanted, fd);
      oldEvents := {};
      var ndInd := fdMap[fd].notifyDesiredIndex;
      if ndInd == -1 {
        ndInd := AllocateNotifiesDesiredIndex();
        WantNew(fdMap, notifiesDesired, callbacks, nNotifiesDesired, wanted, fd, events, callback);
        nNotifiesDesired := nNotifiesDesired + 1;
        fdMap := fdMap[fd := fdMap[fd].(notifyDesiredIndex := ndInd)];
      } else {
        oldEvents := notifiesDesired[ndInd].events;
        WantAgain(fdMap, notifiesDesired, callbacks, nNotifiesDesired, wanted, fd, events, callback);
      }
      notifiesDesired := notifiesDesired[ndInd := Notify(fd, events)];
      callbacks := callbacks[ndInd := callback];
      wanted := wanted[fd := Want(events, callback)];
    }

    // deallocate_notify_desired_index: the last place moves to the one that becomes free
    method DeallocateNotifyDesiredIndex(fd: nat)
      requires Indexed() && fd < |fdMap| && fdMap[fd].notifyDesiredIndex != -1
      modifies this`fdMap, this`notifiesDesired, this`callbacks, this`nNotifiesDesired, this`wanted
      ensures Indexed() && wanted == old(wanted) - {fd} && SameChanges(old(fdMap), fdMap)
    {
      assert EntryOk(fdMap, notifiesDesired, callbacks, nNotifiesDesired, wanted, fd);
      var ndInd := fdMap[fd].notifyDesiredIndex;
      var from := nNotifiesDesired - 1;
      assert PlaceOk(fdMap, notifiesDesired, from);
      WantNoMore(fdMap, notifiesDesired, callbacks, nNotifiesDesired, wanted, fd);
      fdMap := fdMap[fd := fdMap[fd].(notifyDesiredIndex := -1)];
      wanted := wanted - {fd};
      if ndInd == from {
        nNotifiesDesired := nNotifiesDesired - 1;
        return;
      }
      var fromFd := notifiesDesired[from].fd;
      fdMap := fdMap[fromFd := fdMap[fromFd].(notifyDesiredIndex := ndInd)];
      notifiesDesired := notifiesDesired[ndInd := notifiesDesired[from]];
      callbacks := callbacks[ndInd := callbacks[from]];
      nNotifiesDesired := nNotifiesDesired - 1;
    }

    // ---- the log ----

    // allocate_change_index
    method AllocateChangeIndex() returns (rv: nat)
      requires Indexed()
      modifies this`changes, this`nChanges
      ensures IndexOk(fdMap, notifiesDesired, callbacks, nNotifiesDesired, wanted) && InBounds(fdMap, changes, nChanges)
      ensures rv == old(nChanges) && nChanges == rv + 1 && old(changes) <= changes && rv < |changes|
    {
      rv := nChanges;
      if rv == |changes| {
        changes := changes + seq(|changes|, _ => Change(0, {}, {}));
      }
      nChanges := nChanges + 1;
    }

    // The entry of a descriptor in the log is made, or brought up to date.
    method LogChange(fd: nat, events: Events, oldEvents: Events, ghost before: map<nat, Want>)
      requires Indexed() && fd < |fdMap| && events == Interest(wanted, fd) && oldEvents == Interest(before, fd)
      requires forall p :: p != fd ==> Interest(wanted, p) == Interest(before, p)
      modifies this`fdMap, this`changes, this`nChanges
      ensures Indexed() && nChanges == old(nChanges) + (if old(fdMap)[fd].changeIndex == -1 then 1 else 0)
      ensures old(ChangesOk(fdMap, changes, nChanges, before, cleared)) ==> Logged() && Log() == Noted(old(Log()), fd)
    {
      ghost var fdMap0, changes0, n0 := fdMap, changes, nChanges;
      var changeInd := fdMap[fd].changeIndex;
      if changeInd == -1 {
        changeInd := AllocateChangeIndex();
        changes := changes[changeInd := changes[changeInd].(oldEvents := oldEvents)];
        fdMap := fdMap[fd := fdMap[fd].(changeIndex := changeInd)];
        SameIndexes(fdMap0, fdMap, notifiesDesired, callbacks, nNotifiesDesired, wanted);
      }
      changes := changes[changeInd := changes[changeInd].(fd := fd, events := events)];
      if ChangesOk(fdMap0, changes0, n0, before, cleared) {
        LoggedOne(fdMap0, changes0, n0, before, cleared, fdMap, changes, nChanges, wanted, fd);
        assert LogOk(fdMap0, changes0, n0, before, cleared, fd);
        NotedOne(fdMap0, changes0, n0, before, cleared, changes, nChanges, fd);
      }
    }

    // protobuf_c_dispatch_watch_fd; no callback means that the descriptor is not watched any longer
    method WatchFd(fd: nat, events: Events, callback: Callback, watch: bool)
      requires Indexed() && (watch <==> events != {})
      modifies this
      ensures Indexed() && cleared == old(cleared)
      ensures nChanges == old(nChanges) + old(if fd < |fdMap| && fdMap[fd].changeIndex != -1 then 0 else 1)
      ensures old(Logged()) ==> Logged() && Log() == Noted(old(Log()), fd)
      ensures wanted == if watch then old(wanted)[fd := Want(events, callback)] else old(wanted) - {fd}
    {
      ForceFdMap(fd);
      ghost var before, fdMap1 := wanted, fdMap;
      var oldEvents: Events := {};
      if watch {
        oldEvents := SetWanted(fd, events, callback);
      } else {
        assert EntryOk(fdMap, notifiesDesired, callbacks, nNotifiesDesired, wanted, fd);
        if fdMap[fd].notifyDesiredIndex != -1 {
          oldEvents := notifiesDesired[fdMap[fd].notifyDesiredIndex].events;
          DeallocateNotifyDesiredIndex(fd);
        }
      }
      if ChangesOk(fdMap1, changes, nChanges, before, cleared) {
        SameLog(fdMap1, fdMap, changes, nChanges, before, cleared);
      }
      LogChange(fd, events, oldEvents, before);
    }

    // protobuf_c_dispatch_clear_changes
    method ClearChanges()
      requires Indexed() && Placed()
      modifies this`fdMap, this`nChanges, this`cleared
      ensures Indexed() && nChanges == 0 && cleared == wanted && (old(Logged()) ==> Logged())
    {
      ghost var fdMap0 := fdMap;
      for i := 0 to nChanges
        invariant |fdMap| == |fdMap0| && InBounds(fdMap, changes, nChanges) && SameWants(fdMap0, fdMap)
        invariant nChanges == old(nChanges) && cleared == old(cleared) && Unlogged(fdMap0, fdMap, changes, i)
      {
        UnloggedAt(fdMap0, fdMap, changes, i);
        var fd := changes[i].fd;
        assert fdMap[fd].changeIndex == i;
        UnloggedStep(fdMap0, fdMap, changes, i);
        fdMap := fdMap[fd := fdMap[fd].(changeIndex := -1)];
      }
      EndClear(fdMap0);
    }

    // The same loop in protobuf_c_dispatch_dispatch, which has no assertions.
    method DispatchClears()
      requires Indexed()
      modifies this`fdMap, this`nChanges, this`cleared
      ensures Indexed() && nChanges == 0 && cleared == wanted && (old(Logged()) ==> Logged())
      ensures |fdMap| == |old(fdMap)|
      ensures forall fd :: 0 <= fd < |fdMap| ==>
        fdMap[fd].changeIndex == if fd in old(Log()) then -1 else old(fdMap)[fd].changeIndex
    {
      ghost var fdMap0, log := fdMap, Log();
      for i := 0 to nChanges
        invariant |fdMap| == |fdMap0| && InBounds(fdMap, changes, nChanges) && SameWants(fdMap0, fdMap)
        invariant nChanges == old(nChanges) && cleared == old(cleared) && Unlogged(fdMap0, fdMap, changes, i)
      {
        var fd := changes[i].fd;
        UnloggedStep(fdMap0, fdMap, changes, i);
        fdMap := fdMap[fd := fdMap[fd].(changeIndex := -1)];
      }
      forall fd | fd in log ensures fd < |fdMap| && fdMap[fd].changeIndex == -1 {
        var j :| 0 <= j < nChanges && log[j] == fd;
        assert changes[j].fd == fd;
      }
      EndClear(fdMap0);
    }

    method EndClear(ghost fdMap0: seq<FdMap>)
      requires IndexOk(fdMap0, notifiesDesired, callbacks, nNotifiesDesired, wanted) && SameWants(fdMap0, fdMap)
      requires InBounds(fdMap, changes, nChanges) && Unlogged(fdMap0, fdMap, changes, nChanges)
      modifies this`nChanges, this`cleared
      ensures Indexed() && nChanges == 0 && cleared == wanted
      ensures ChangesOk(fdMap0, old(changes), old(nChanges), old(wanted), old(cleared)) ==> Logged()
    {
      SameIndexes(fdMap0, fdMap, notifiesDesired, callbacks, nNotifiesDesired, wanted);
      if ChangesOk(fdMap0, changes, nChanges, wanted, cleared) {
        forall fd | 0 <= fd < |fdMap| ensures fdMap[fd].changeIndex == -1 {
          assert LogOk(fdMap0, changes, nChanges, wanted, cleared, fd);
          var c := fdMap0[fd].changeIndex;
          assert c == -1 || changes[c].fd == fd;
        }
      }
      cleared := wanted;
      nChanges := 0;
    }

    // deallocate_change_index; the descriptor whose map entry it corrects is the one of the entry that goes away,
    // not the one of the entry that moves
    method DeallocateChangeIndex(fd: nat)
      requires Indexed() && CanClose(fd) && fd < |fdMap| && fdMap[fd].changeIndex != -1
      modifies this`fdMap, this`changes, this`nChanges
      ensures Indexed() && SameWants(old(fdMap), fdMap) && nChanges == old(nChanges) - 1
      ensures Deallocated(old(fdMap), old(changes), old(nChanges), fdMap, changes, nChanges, fd)
    {
      ghost var fdMap0 := fdMap;
      var chInd, from := fdMap[fd].changeIndex, nChanges - 1;
      fdMap := fdMap[fd := fdMap[fd].(changeIndex := -1)];
      if chInd == from {
        nChanges := nChanges - 1;
        SameIndexes(fdMap0, fdMap, notifiesDesired, callbacks, nNotifiesDesired, wanted);
        return;
      }
      var fromFd := changes[chInd].fd;
      fdMap := fdMap[fromFd := fdMap[fromFd].(changeIndex := chInd)];
      changes := changes[chInd := changes[from]];
      nChanges := nChanges - 1;
      SameIndexes(fdMap0, fdMap, notifiesDesired, callbacks, nNotifiesDesired, wanted);
    }

    // The part of protobuf_c_dispatch_fd_closed that is about the log.
    method DropChange(fd: nat)
      requires Indexed() && CanClose(fd) && fd < |fdMap|
      modifies this`fdMap, this`changes, this`nChanges
      ensures Indexed() && SameWants(old(fdMap), fdMap)
      ensures old(Logged()) ==> Closed(old(Log()), fd, wanted - {fd}, cleared - {fd})
    {
      ghost var fdMap0, changes0, n0 := fdMap, changes, nChanges;
      ghost var logged := Logged();
      fdMap := fdMap[fd := fdMap[fd].(closedSinceNotifyStarted := true)];
      SameIndexes(fdMap0, fdMap, notifiesDesired, callbacks, nNotifiesDesired, wanted);
      if logged {
        assert LogOk(fdMap0, changes0, n0, wanted, cleared, fd);
        SameLog(fdMap0, fdMap, changes, nChanges, wanted, cleared);
      }
      ghost var fdMap1 := fdMap;
      if fdMap[fd].changeIndex != -1 {
        DeallocateChangeIndex(fd);
      }
      if logged {
        ClosedLog(fdMap1, changes0, n0, wanted, cleared, fdMap, changes, nChanges, fd);
        ClosedFds(fdMap1, changes0, n0, wanted, cleared, fdMap, changes, nChanges, fd);
      }
    }

    // What closing fd leaves of a log that was right: it is right without fd if the close was safe; otherwise
    // fd keeps an index into the log, and the entry that was moved is not where its descriptor says.
    ghost predicate Closed(log: seq<nat>, fd: nat, wanted: map<nat, Want>, cleared: map<nat, Want>)
      reads this`fdMap, this`changes, this`nChanges
    {
      && nChanges <= |changes| && fd < |fdMap|
      && (ChangesOk(fdMap, changes, nChanges, wanted, cleared) <==> SafeToClose(log, fd))
      && (SafeToClose(log, fd) ==> Log() == Dropped(log, fd))
      && (!SafeToClose(log, fd) ==> fdMap[fd].changeIndex != -1 && fd !in Log() && !Placed())
    }

    // protobuf_c_dispatch_fd_closed.  A closed descriptor is forgotten, as it was never watched.
    method FdClosed(fd: nat)
      requires Indexed() && CanClose(fd)
      modifies this
      ensures Indexed() && wanted == old(wanted) - {fd} && cleared == old(cleared) - {fd}
      ensures old(Logged()) ==> Closed(old(Log()), fd, wanted, cleared)
    {
      ForceFdMap(fd);
      DropChange(fd);
      assert EntryOk(fdMap, notifiesDesired, callbacks, nNotifiesDesired, wanted, fd);
      ghost var before, fdMap1 := wanted, fdMap;
      if fdMap[fd].notifyDesiredIndex != -1 {
        DeallocateNotifyDesiredIndex(fd);
      }
      cleared := cleared - {fd};
      assert wanted == before - {fd};
      SameLogIff(fdMap1, fdMap, changes, nChanges, wanted, cleared);
    }
  }

  // ---- lemmas about the array ----

  ghost predicate SameChanges(a: seq<FdMap>, b: seq<FdMap>)
  {
    |a| == |b| && forall p :: 0 <= p < |a| ==> a[p].changeIndex == b[p].changeIndex
  }

  ghost predicate SameWants(a: seq<FdMap>, b: seq<FdMap>)
  {
    |a| == |b| && forall p :: 0 <= p < |a| ==> a[p].notifyDesiredIndex == b[p].notifyDesiredIndex
  }

  // The descriptors of the first n changes have lost their index, the others keep theirs.
  ghost predicate Unlogged(a: seq<FdMap>, b: seq<FdMap>, changes: seq<Change>, n: nat)
  {
    && |a| == |b| && n <= |changes|
    && (forall j :: 0 <= j < n ==> changes[j].fd < |b| && b[changes[j].fd].changeIndex == -1)
    && forall p :: 0 <= p < |a| && p !in Fds(changes[..n]) ==> b[p].changeIndex == a[p].changeIndex
  }

  lemma UnloggedStep(a: seq<FdMap>, b: seq<FdMap>, changes: seq<Change>, n: nat)
    requires Unlogged(a, b, changes, n) && n < |changes| && changes[n].fd < |b|
    ensures Unlogged(a, b[changes[n].fd := b[changes[n].fd].(changeIndex := -1)], changes, n + 1)
  {
    assert Fds(changes[..n + 1]) == Fds(changes[..n]) + [changes[n].fd];
  }

  lemma UnloggedAt(a: seq<FdMap>, b: seq<FdMap>, changes: seq<Change>, n: nat)
    requires Unlogged(a, b, changes, n) && n < |changes|
    requires forall i {:trigger ChangeAt(a, changes, i)} :: 0 <= i <= n ==> ChangeAt(a, changes, i)
    ensures changes[n].fd < |b| && b[changes[n].fd].changeIndex == n
  {
    assert ChangeAt(a, changes, n);
    forall j | 0 <= j < n ensures changes[j].fd != changes[n].fd { assert ChangeAt(a, changes, j); }
  }

  lemma SameIndexes(a: seq<FdMap>, b: seq<FdMap>, notifies: seq<Notify>, callbacks: seq<Callback>, n: nat,
                    wanted: map<nat, Want>)
    requires IndexOk(a, notifies, callbacks, n, wanted) && SameWants(a, b)
    ensures IndexOk(b, notifies, callbacks, n, wanted)
  {
    forall fd | 0 <= fd < |b| ensures EntryOk(b, notifies, callbacks, n, wanted, fd) {
      assert EntryOk(a, notifies, callbacks, n, wanted, fd);
    }
    forall i | 0 <= i < n ensures PlaceOk(b, notifies, i) { assert PlaceOk(a, notifies, i); }
  }

  lemma SameLog(a: seq<FdMap>, b: seq<FdMap>, changes: seq<Change>, n: nat, wanted: map<nat, Want>, was: map<nat, Want>)
    requires ChangesOk(a, changes, n, wanted, was) && SameChanges(a, b)
    ensures ChangesOk(b, changes, n, wanted, was)
  {
    forall fd | 0 <= fd < |b| ensures LogOk(b, changes, n, wanted, was, fd) {
      assert LogOk(a, changes, n, wanted, was, fd);
    }
    forall i | 0 <= i < n ensures ChangeAt(b, changes, i) { assert ChangeAt(a, changes, i); }
  }

  lemma SameLogIff(a: seq<FdMap>, b: seq<FdMap>, changes: seq<Change>, n: nat, wanted: map<nat, Want>,
                   was: map<nat, Want>)
    requires SameChanges(a, b)
    ensures ChangesOk(a, changes, n, wanted, was) <==> ChangesOk(b, changes, n, wanted, was)
    ensures forall i {:trigger ChangeAt(b, changes, i)} {:trigger ChangeAt(a, changes, i)} ::
      0 <= i < |changes| ==> (ChangeAt(a, changes, i) <==> ChangeAt(b, changes, i))
  {
    if ChangesOk(a, changes, n, wanted, was) { SameLog(a, b, changes, n, wanted, was); }
    if ChangesOk(b, changes, n, wanted, was) { SameLog(b, a, changes, n, wanted, was); }
  }

  lemma ArrayGrows(fdMap: seq<FdMap>, notifies: seq<Notify>, callbacks: seq<Callback>, n: nat, wanted: map<nat, Want>,
                   notifies': seq<Notify>, callbacks': seq<Callback>)
    requires IndexOk(fdMap, notifies, callbacks, n, wanted)
    requires notifies <= notifies' && callbacks <= callbacks' && |notifies'| == |callbacks'|
    ensures IndexOk(fdMap, notifies', callbacks', n, wanted)
  {
    forall fd | 0 <= fd < |fdMap| ensures EntryOk(fdMap, notifies', callbacks', n, wanted, fd) {
      assert EntryOk(fdMap, notifies, callbacks, n, wanted, fd);
    }
    forall i | 0 <= i < n ensures PlaceOk(fdMap, notifies', i) { assert PlaceOk(fdMap, notifies, i); }
  }

  lemma WantNew(fdMap: seq<FdMap>, notifies: seq<Notify>, callbacks: seq<Callback>, n: nat, wanted: map<nat, Want>,
                fd: nat, events: Events, callback: Callback)
    requires IndexOk(fdMap, notifies, callbacks, n, wanted) && fd < |fdMap| && n < |notifies| && events != {}
    requires fdMap[fd].notifyDesiredIndex == -1
    ensures IndexOk(fdMap[fd := fdMap[fd].(notifyDesiredIndex := n)], notifies[n := Notify(fd, events)],
                    callbacks[n := callback], n + 1, wanted[fd := Want(events, callback)])
  {
    var m := fdMap[fd := fdMap[fd].(notifyDesiredIndex := n)];
    var x, c := notifies[n := Notify(fd, events)], callbacks[n := callback];
    var w, k := wanted[fd := Want(events, callback)], n + 1;
    forall p | 0 <= p < |m| ensures EntryOk(m, x, c, k, w, p) {
      assert EntryOk(fdMap, notifies, callbacks, n, wanted, p);
    }
    forall i | 0 <= i < k ensures PlaceOk(m, x, i) { if i < n { assert PlaceOk(fdMap, notifies, i); } }
  }

  lemma WantAgain(fdMap: seq<FdMap>, notifies: seq<Notify>, callbacks: seq<Callback>, n: nat, wanted: map<nat, Want>,
                  fd: nat, events: Events, callback: Callback)
    requires IndexOk(fdMap, notifies, callbacks, n, wanted) && fd < |fdMap| && events != {}
    requires 0 <= fdMap[fd].notifyDesiredIndex < n
    ensures var i := fdMap[fd].notifyDesiredIndex;
            IndexOk(fdMap, notifies[i := Notify(fd, events)], callbacks[i := callback], n,
                    wanted[fd := Want(events, callback)])
  {
    assert EntryOk(fdMap, notifies, callbacks, n, wanted, fd);
    var k := fdMap[fd].notifyDesiredIndex;
    var x, c, w := notifies[k := Notify(fd, events)], callbacks[k := callback], wanted[fd := Want(events, callback)];
    forall p | 0 <= p < |fdMap| ensures EntryOk(fdMap, x, c, n, w, p) {
      assert EntryOk(fdMap, notifies, callbacks, n, wanted, p);
    }
    forall i | 0 <= i < n ensures PlaceOk(fdMap, x, i) { assert PlaceOk(fdMap, notifies, i); }
  }

  // The last place is moved to the one of fd.
  lemma WantNoMore(fdMap: seq<FdMap>, notifies: seq<Notify>, callbacks: seq<Callback>, n: nat,
                   wanted: map<nat, Want>, fd: nat)
    requires IndexOk(fdMap, notifies, callbacks, n, wanted) && fd < |fdMap| && fdMap[fd].notifyDesiredIndex != -1
    ensures 0 <= fdMap[fd].notifyDesiredIndex < n && n > 0 && notifies[n - 1].fd < |fdMap|
    ensures var i, from := fdMap[fd].notifyDesiredIndex, n - 1;
            var out := fdMap[fd := fdMap[fd].(notifyDesiredIndex := -1)];
            if i == from then IndexOk(out, notifies, callbacks, n - 1, wanted - {fd})
            else
              var p := notifies[from].fd;
              IndexOk(out[p := out[p].(notifyDesiredIndex := i)], notifies[i := notifies[from]],
                      callbacks[i := callbacks[from]], n - 1, wanted - {fd})
  {
    assert EntryOk(fdMap, notifies, callbacks, n, wanted, fd);
    var k, from := fdMap[fd].notifyDesiredIndex, n - 1;
    assert PlaceOk(fdMap, notifies, from);
    var q := notifies[from].fd;
    assert EntryOk(fdMap, notifies, callbacks, n, wanted, q);
    var out := fdMap[fd := fdMap[fd].(notifyDesiredIndex := -1)];
    var m := if k == from then out else out[q := out[q].(notifyDesiredIndex := k)];
    var x := if k == from then notifies else notifies[k := notifies[from]];
    var c := if k == from then callbacks else callbacks[k := callbacks[from]];
    var w := wanted - {fd};
    forall p | 0 <= p < |m| ensures EntryOk(m, x, c, from, w, p) {
      assert EntryOk(fdMap, notifies, callbacks, n, wanted, p);
      var i := fdMap[p].notifyDesiredIndex;
      if i != -1 { assert PlaceOk(fdMap, notifies, i); }
    }
    forall i | 0 <= i < n - 1 ensures PlaceOk(m, x, i) {
      assert PlaceOk(fdMap, notifies, i);
    }
  }

  // ---- lemmas about the log ----

  lemma LoggedOne(fdMap: seq<FdMap>, changes: seq<Change>, n: nat, before: map<nat, Want>, was: map<nat, Want>,
                  fdMap': seq<FdMap>, changes': seq<Change>, n': nat, wanted: map<nat, Want>, fd: nat)
    requires ChangesOk(fdMap, changes, n, before, was) && fd < |fdMap| == |fdMap'|
    requires forall p :: p != fd ==> Interest(wanted, p) == Interest(before, p)
    requires forall p :: 0 <= p < |fdMap| && p != fd ==> fdMap'[p].changeIndex == fdMap[p].changeIndex
    requires var c := fdMap[fd].changeIndex;
             if c == -1 then
               n' == n + 1 <= |changes'| && |changes| <= |changes'| && fdMap'[fd].changeIndex == n
               && changes'[n] == Change(fd, Interest(wanted, fd), Interest(before, fd))
               && forall i :: 0 <= i < n ==> changes'[i] == changes[i]
             else
               n' == n && fdMap'[fd].changeIndex == c && 0 <= c < |changes|
               && changes' == changes[c := changes[c].(fd := fd, events := Interest(wanted, fd))]
    ensures ChangesOk(fdMap', changes', n', wanted, was)
  {
    assert LogOk(fdMap, changes, n, before, was, fd);
    forall p | 0 <= p < |fdMap'| ensures LogOk(fdMap', changes', n', wanted, was, p) {
      assert LogOk(fdMap, changes, n, before, was, p);
    }
    forall i | 0 <= i < n' ensures ChangeAt(fdMap', changes', i) {
      if i < n { assert ChangeAt(fdMap, changes, i); }
    }
  }

  // What deallocate_change_index does, or its absence for a descriptor with no entry.
  ghost predicate Deallocated(fdMap: seq<FdMap>, changes: seq<Change>, n: nat,
                              fdMap': seq<FdMap>, changes': seq<Change>, n': nat, fd: nat)
  {
    && fd < |fdMap| == |fdMap'|
    && var c := fdMap[fd].changeIndex;
       if c == -1 then
         n' == n && changes' == changes && SameChanges(fdMap, fdMap')
       else
         && 0 <= c < |changes| && n' == n - 1 && 0 <= n' < |changes|
         && if c == n' then
              && changes' == changes && fdMap'[fd].changeIndex == -1
              && forall p :: 0 <= p < |fdMap| && p != fd ==> fdMap'[p].changeIndex == fdMap[p].changeIndex
            else
              && changes' == changes[c := changes[n']] && changes[c].fd < |fdMap'|
              && fdMap'[changes[c].fd].changeIndex == c
              && forall p :: 0 <= p < |fdMap| && p != fd && p != changes[c].fd ==>
                   fdMap'[p].changeIndex == fdMap[p].changeIndex
  }

  // The log of descriptors after a close.
  lemma ClosedFds(fdMap: seq<FdMap>, changes: seq<Change>, n: nat, wanted: map<nat, Want>, was: map<nat, Want>,
                  fdMap': seq<FdMap>, changes': seq<Change>, n': nat, fd: nat)
    requires ChangesOk(fdMap, changes, n, wanted, was) && Deallocated(fdMap, changes, n, fdMap', changes', n', fd)
    ensures n' <= |changes'|
    ensures var c, log := fdMap[fd].changeIndex, Fds(changes[..n]);
      && (SafeToClose(log, fd) <==> c == -1 || c == n - 1)
      && (SafeToClose(log, fd) ==> Fds(changes'[..n']) == Dropped(log, fd))
      && (!SafeToClose(log, fd) ==>
           fdMap'[fd].changeIndex != -1 && fd !in Fds(changes'[..n']) && 0 <= c < n' && !ChangeAt(fdMap', changes', c))
  {
    var c, log := fdMap[fd].changeIndex, Fds(changes[..n]);
    LoggedFds(fdMap, changes, n, wanted, was, fd);
    if !SafeToClose(log, fd) {
      assert ChangeAt(fdMap, changes, n - 1) && ChangeAt(fdMap, changes, c);
      forall i | 0 <= i < n' ensures changes'[i].fd != fd { assert ChangeAt(fdMap, changes, i); }
    }
  }

  // Forgetting a descriptor together with its entry in the log.
  lemma ClosedLog(fdMap: seq<FdMap>, changes: seq<Change>, n: nat, wanted: map<nat, Want>, was: map<nat, Want>,
                  fdMap': seq<FdMap>, changes': seq<Change>, n': nat, fd: nat)
    requires ChangesOk(fdMap, changes, n, wanted, was) && Deallocated(fdMap, changes, n, fdMap', changes', n', fd)
    ensures ChangesOk(fdMap', changes', n', wanted - {fd}, was - {fd}) <==>
            fdMap[fd].changeIndex == -1 || fdMap[fd].changeIndex == n - 1
  {
    var c := fdMap[fd].changeIndex;
    var w, o := wanted - {fd}, was - {fd};
    assert LogOk(fdMap, changes, n, wanted, was, fd);
    if c == -1 || c == n - 1 {
      forall p | 0 <= p < |fdMap'| ensures LogOk(fdMap', changes', n', w, o, p) {
        assert LogOk(fdMap, changes, n, wanted, was, p);
      }
      forall i | 0 <= i < n' ensures ChangeAt(fdMap', changes', i) { assert ChangeAt(fdMap, changes, i); }
    } else {
      assert changes[c].fd == fd && fdMap'[fd].changeIndex == c;
      assert ChangeAt(fdMap, changes, n - 1);
      assert changes'[c].fd != fd;
      assert !LogOk(fdMap', changes', n', w, o, fd);
    }
  }

  lemma MapGrows(fdMap: seq<FdMap>, more: seq<FdMap>, notifies: seq<Notify>, callbacks: seq<Callback>, n: nat,
                 wanted: map<nat, Want>)
    requires IndexOk(fdMap, notifies, callbacks, n, wanted)
    requires forall i :: 0 <= i < |more| ==> more[i].notifyDesiredIndex == -1
    ensures IndexOk(fdMap + more, notifies, callbacks, n, wanted)
  {
    var now := fdMap + more;
    forall fd | 0 <= fd < |now| ensures EntryOk(now, notifies, callbacks, n, wanted, fd) {
      if fd < |fdMap| { assert EntryOk(fdMap, notifies, callbacks, n, wanted, fd); }
    }
    forall i | 0 <= i < n ensures PlaceOk(now, notifies, i) { assert PlaceOk(fdMap, notifies, i); }
  }

  lemma LogGrows(fdMap: seq<FdMap>, more: seq<FdMap>, changes: seq<Change>, n: nat, wanted: map<nat, Want>,
                 was: map<nat, Want>)
    requires ChangesOk(fdMap, changes, n, wanted, was) && forall fd :: fd in wanted ==> fd < |fdMap|
    requires forall i :: 0 <= i < |more| ==> more[i].changeIndex == -1
    ensures ChangesOk(fdMap + more, changes, n, wanted, was)
  {
    var now := fdMap + more;
    forall fd | 0 <= fd < |now| ensures LogOk(now, changes, n, wanted, was, fd) {
      if fd < |fdMap| { assert LogOk(fdMap, changes, n, wanted, was, fd); }
    }
    forall i | 0 <= i < n ensures ChangeAt(now, changes, i) { assert ChangeAt(fdMap, changes, i); }
  }

  // The array and the map are mutual inverses, and the array holds what is wanted, once each.
  lemma PlacesAreWanted(fdMap: seq<FdMap>, notifies: seq<Notify>, callbacks: seq<Callback>, n: nat,
                        wanted: map<nat, Want>)
    requires IndexOk(fdMap, notifies, callbacks, n, wanted)
    ensures forall fd, i :: 0 <= fd < |fdMap| && 0 <= i < n ==>
      (notifies[i].fd == fd <==> fdMap[fd].notifyDesiredIndex == i)
    ensures forall fd :: fd in wanted <==> exists i :: 0 <= i < n && notifies[i].fd == fd
    ensures forall i :: 0 <= i < n ==>
              notifies[i].fd in wanted && wanted[notifies[i].fd] == Want(notifies[i].events, callbacks[i])
  {
    forall fd, i | 0 <= fd < |fdMap| && 0 <= i < n ensures notifies[i].fd == fd <==> fdMap[fd].notifyDesiredIndex == i {
      assert PlaceOk(fdMap, notifies, i) && EntryOk(fdMap, notifies, callbacks, n, wanted, fd);
    }
    forall fd | fd in wanted ensures exists i :: 0 <= i < n && notifies[i].fd == fd {
      assert EntryOk(fdMap, notifies, callbacks, n, wanted, fd);
    }
    forall i | 0 <= i < n
      ensures notifies[i].fd in wanted && wanted[notifies[i].fd] == Want(notifies[i].events, callbacks[i])
    {
      assert PlaceOk(fdMap, notifies, i) && EntryOk(fdMap, notifies, callbacks, n, wanted, notifies[i].fd);
    }
  }

  // ---- runs ----

  datatype Event = Watched(fd: nat, events: Events, callback: Callback) | FdClose(fd: nat) | Cleared

  // What is wanted, what was wanted when the log was last cleared, and which descriptors the log names.
  datatype State = State(wanted: map<nat, Want>, cleared: map<nat, Want>, log: seq<nat>)

  function After(s: State, e: Event): State
  {
    match e
    case Watched(fd, events, callback) =>
      State(if events == {} then s.wanted - {fd} else s.wanted[fd := Want(events, callback)], s.cleared,
            Noted(s.log, fd))
    case FdClose(fd) => State(s.wanted - {fd}, s.cleared - {fd}, Dropped(s.log, fd))
    case Cleared => State(s.wanted, s.wanted, [])
  }

  function AfterAll(s: State, es: seq<Event>): State
  {
    if es == [] then s else After(AfterAll(s, es[..|es| - 1]), es[|es| - 1])
  }

  // No descriptor is closed that is in the log before others.  The events alone decide that.
  predicate Safe(s: State, es: seq<Event>)
  {
    es == [] ||
    (Safe(s, es[..|es| - 1])
     && (es[|es| - 1].FdClose? ==> SafeToClose(AfterAll(s, es[..|es| - 1]).log, es[|es| - 1].fd)))
  }

  // One event, from a state in which the log is right.
  method Perform(r: Registry, e: Event)
    requires r.Indexed() && r.Logged()
    modifies r
    ensures r.Indexed()
    ensures var s := After(old(State(r.wanted, r.cleared, r.Log())), e);
      r.wanted == s.wanted && r.cleared == s.cleared && (r.Logged() ==> r.Log() == s.log)
    ensures r.Logged() <==> (e.FdClose? ==> SafeToClose(old(r.Log()), e.fd))
  {
    match e
    case Watched(fd, events, callback) => r.WatchFd(fd, events, callback, events != {});
    case FdClose(fd) =>
      LoggedFds(r.fdMap, r.changes, r.nChanges, r.wanted, r.cleared, fd);
      r.FdClosed(fd);
    case Cleared => r.DispatchClears();
  }

  // Over any run in which at most the last close is not safe, what is wanted is what the events say, and the log
  // is right at the end exactly if that close is safe too.  A log that is right leads from what was wanted when
  // it was cleared to what is wanted now.
  method RunAll(r: Registry, es: seq<Event>, ghost s: State)
    requires r.Indexed() && r.Logged() && s == State(r.wanted, r.cleared, r.Log())
    requires es != [] ==> Safe(s, es[..|es| - 1])
    modifies r
    ensures r.Indexed() && r.wanted == AfterAll(s, es).wanted && r.cleared == AfterAll(s, es).cleared
    ensures r.Logged() <==> Safe(s, es)
    ensures Safe(s, es) ==> r.Log() == AfterAll(s, es).log
    ensures Safe(s, es) ==>
      forall fd :: Applied(r.changes[..r.nChanges], fd, Interest(r.cleared, fd)) == Interest(r.wanted, fd)
    ensures Safe(s, es) ==> forall i, j :: 0 <= i < j < r.nChanges ==> r.changes[i].fd != r.changes[j].fd
    ensures Safe(s, es) ==> forall i :: 0 <= i < r.nChanges ==>
      r.changes[i].oldEvents == Interest(r.cleared, r.changes[i].fd)
  {
    for i := 0 to |es|
      invariant r.Indexed() && (r.Logged() <==> Safe(s, es[..i]))
      invariant r.wanted == AfterAll(s, es[..i]).wanted && r.cleared == AfterAll(s, es[..i]).cleared
      invariant r.Logged() ==> r.Log() == AfterAll(s, es[..i]).log
    {
      SafeSoFar(s, es, i);
      assert es[..i + 1][..i] == es[..i];
      Perform(r, es[i]);
    }
    assert es[..|es|] == es;
    if r.Logged() {
      forall fd ensures Applied(r.changes[..r.nChanges], fd, Interest(r.cleared, fd)) == Interest(r.wanted, fd) {
        LogTells(r.fdMap, r.changes, r.nChanges, r.wanted, r.cleared, fd);
      }
      LogTells(r.fdMap, r.changes, r.nChanges, r.wanted, r.cleared, 0);
    }
  }

  lemma {:induction false} SafeSoFar(s: State, es: seq<Event>, i: nat)
    requires i < |es| && Safe(s, es[..|es| - 1])
    ensures Safe(s, es[..i])
  {
    if i < |es| - 1 {
      var front := es[..|es| - 1];
      assert front[..|front| - 1] == es[..|es| - 2] && front[..i] == es[..i];
      SafeSoFar(s, front, i);
    }
  }

  // After a close that is not safe and the end of the round, the descriptor has an index into an empty log:
  // another close would look at the entry before the first.
  method LeaveStale(r: Registry, fd: nat)
    requires r.Indexed() && r.Logged() && !SafeToClose(r.Log(), fd)
    modifies r
    ensures r.Indexed() && r.nChanges == 0 && r.cleared == r.wanted == old(r.wanted) - {fd} && !r.CanClose(fd)
  {
    r.FdClosed(fd);
    r.DispatchClears();
  }

  // And a watch of it then leaves no entry in the log, though it wants what was not wanted before.
  method WatchStale(r: Registry, fd: nat, events: Events, callback: Callback)
    requires r.Indexed() && r.nChanges == 0 && fd !in r.cleared && !r.CanClose(fd) && events != {}
    modifies r
    ensures r.Indexed() && r.nChanges == 0 && Interest(r.wanted, fd) == events != Interest(r.cleared, fd)
  {
    r.WatchFd(fd, events, callback, true);
  }

  // Descriptors 0 and 1 are watched, 0 is closed and the round ends: then 0 cannot be closed again.
  method CloseOfTwo(callback: Callback) returns (r: Registry)
    ensures r.Indexed() && r.nChanges == 0 && !r.CanClose(0)
  {
    r := new Registry();
    r.WatchFd(0, {Readable}, callback, true);
    r.WatchFd(1, {Readable}, callback, true);
    LeaveStale(r, 0);
  }
}
