/** Open file descriptions: the global table with its reference counts, and the handles of all processes. */
module Descriptors {
  class FileDescription {
    const inodeNum: nat
    const fs: nat

    constructor (inodeNum: nat, fs: nat)
      ensures this.inodeNum == inodeNum && this.fs == fs
    {
      this.inodeNum, this.fs := inodeNum, fs;
    }
  }

  datatype Source = FILESYSTEM | PIPE

  datatype OpenFile = OpenFile(src: Source, refcount: nat, fd: FileDescription)

  datatype Error = ENOERR | EBADF

  datatype Handle = Handle(open: bool, fd: FileDescription?, accessPtr: nat, flags: nat)

  ghost predicate InTable(fds: seq<OpenFile>, fd: FileDescription) {
    exists i :: 0 <= i < |fds| && fds[i].fd == fd
  }

  ghost predicate Unique(fds: seq<OpenFile>) {
    forall i, j | 0 <= i < j < |fds| :: fds[i].fd != fds[j].fd
  }

  // The reference count of a description, and 0 when it is not in the table.
  ghost function Refs(fds: seq<OpenFile>, fd: FileDescription): nat {
    if fds == [] then 0
    else if fds[|fds| - 1].fd == fd then fds[|fds| - 1].refcount
    else Refs(fds[..|fds| - 1], fd)
  }

  lemma {:induction false} RefsAt(fds: seq<OpenFile>, i: nat)
    requires Unique(fds) && i < |fds|
    ensures Refs(fds, fds[i].fd) == fds[i].refcount
  {
    if i < |fds| - 1 {
      RefsAt(fds[..|fds| - 1], i);
    }
  }

  lemma {:induction false} NotInTable(fds: seq<OpenFile>, fd: FileDescription)
    requires forall i | 0 <= i < |fds| :: fds[i].fd != fd
    ensures Refs(fds, fd) == 0
  {
    if fds != [] {
      NotInTable(fds[..|fds| - 1], fd);
    }
  }

  // Setting one count changes that one.
  lemma {:induction false} RefsSet(fds: seq<OpenFile>, i: nat, n: nat, fd: FileDescription)
    requires Unique(fds) && i < |fds|
    ensures Refs(fds[i := fds[i].(refcount := n)], fd) == if fd == fds[i].fd then n else Refs(fds, fd)
  {
    var last := |fds| - 1;
    var fds' := fds[i := fds[i].(refcount := n)];
    if i < last {
      RefsSet(fds[..last], i, n, fd);
      assert fds'[..last] == fds[..last][i := fds[i].(refcount := n)];
    } else {
      assert fds'[..last] == fds[..last];
    }
  }

  lemma RefsAdded(fds: seq<OpenFile>, f: OpenFile, fd: FileDescription)
    ensures Refs(fds + [f], fd) == if f.fd == fd then f.refcount else Refs(fds, fd)
  {
    assert (fds + [f])[..|fds|] == fds;
  }

  // Removing an entry leaves all other counts.
  lemma {:induction false} RefsRemoved(fds: seq<OpenFile>, i: nat, fd: FileDescription)
    requires Unique(fds) && i < |fds|
    ensures Refs(fds[..i] + fds[i + 1..], fd) == if fd == fds[i].fd then 0 else Refs(fds, fd)
  {
    hide Refs;
    var front, last := fds[..|fds| - 1], fds[|fds| - 1];
    assert fds == front + [last];
    RefsAdded(front, last, fd);
    if i < |front| {
      RefsRemoved(front, i, fd);
      assert fds[..i] + fds[i + 1..] == front[..i] + front[i + 1..] + [last];
      RefsAdded(front[..i] + front[i + 1..], last, fd);
    } else {
      assert fds[..i] + fds[i + 1..] == front;
      if fd == last.fd {
        NotInTable(front, fd);
      }
    }
  }

  // All references.
  ghost function Counts(fds: seq<OpenFile>): multiset<FileDescription> {
    if fds == [] then multiset{} else Counts(fds[..|fds| - 1])[fds[|fds| - 1].fd := fds[|fds| - 1].refcount]
  }

  lemma {:induction false} CountIsRefs(fds: seq<OpenFile>, fd: FileDescription)
    ensures Counts(fds)[fd] == Refs(fds, fd)
  {
    if fds != [] {
      CountIsRefs(fds[..|fds| - 1], fd);
    }
  }

  lemma CountsMoved(fds: seq<OpenFile>, fds': seq<OpenFile>, less: multiset<FileDescription>, more: multiset<FileDescription>)
    requires forall x :: Refs(fds', x) + less[x] == Refs(fds, x) + more[x]
    ensures Counts(fds') + less == Counts(fds) + more
  {
    hide Refs, Counts;
    forall x
      ensures (Counts(fds') + less)[x] == (Counts(fds) + more)[x]
    {
      CountIsRefs(fds, x);
      CountIsRefs(fds', x);
    }
    SameMultiset(Counts(fds') + less, Counts(fds) + more);
  }

  lemma SameMultiset(a: multiset<FileDescription>, b: multiset<FileDescription>)
    requires forall x :: a[x] == b[x]
    ensures a == b
  {
  }

  // The descriptions that open handles name, as often as they do.
  ghost function Names(handles: seq<Handle>): multiset<FileDescription> {
    if handles == [] then multiset{}
    else Names(handles[..|handles| - 1]) + Named(handles[|handles| - 1])
  }

  ghost function Named(h: Handle): multiset<FileDescription> {
    if h.open && h.fd != null then multiset{h.fd as FileDescription} else multiset{}
  }

  lemma NamesAdded(handles: seq<Handle>, h: Handle)
    ensures Names(handles + [h]) == Names(handles) + Named(h)
  {
    assert (handles + [h])[..|handles|] == handles;
  }

  lemma {:induction false} NamesSet(handles: seq<Handle>, i: nat, h: Handle)
    requires i < |handles|
    ensures Names(handles[i := h]) + Named(handles[i]) == Names(handles) + Named(h)
  {
    hide Names, Named;
    var front, last := handles[..|handles| - 1], handles[|handles| - 1];
    assert handles == front + [last];
    NamesAdded(front, last);
    if i < |front| {
      NamesSet(front, i, h);
      assert handles[i := h] == front[i := h] + [last];
      NamesAdded(front[i := h], last);
      Exchanged(Names(front[i := h]), Named(handles[i]), Names(front), Named(h), Named(last));
    } else {
      assert handles[i := h] == front + [h];
      NamesAdded(front, h);
    }
  }

  // A free slot is taken, or a taken one freed.
  lemma NamesOfSlot(handles: seq<Handle>, i: nat, h: Handle)
    requires i < |handles|
    ensures !handles[i].open ==> Names(handles[i := h]) == Names(handles) + Named(h)
    ensures !h.open ==> Names(handles[i := h]) + Named(handles[i]) == Names(handles)
  {
    NamesSet(handles, i, h);
    assert forall n: multiset<FileDescription> :: n + multiset{} == n;
  }

  lemma Cancelled(a: multiset<FileDescription>, b: multiset<FileDescription>, more: multiset<FileDescription>)
    requires a + more == b + more
    ensures a == b
  {
    forall x
      ensures a[x] == b[x]
    {
      assert (a + more)[x] == (b + more)[x];
    }
  }

  lemma NamesSame(handles: seq<Handle>, i: nat, h: Handle)
    requires i < |handles| && Named(handles[i]) == Named(h)
    ensures Names(handles[i := h]) == Names(handles)
  {
    NamesSet(handles, i, h);
    Cancelled(Names(handles[i := h]), Names(handles), Named(h));
  }

  lemma Exchanged(a: multiset<FileDescription>, b: multiset<FileDescription>, c: multiset<FileDescription>,
                  d: multiset<FileDescription>, more: multiset<FileDescription>)
    requires a + b == c + d
    ensures (a + more) + b == (c + more) + d
  {
    forall x
      ensures ((a + more) + b)[x] == ((c + more) + d)[x]
    {
      assert (a + b)[x] == (c + d)[x];
    }
  }

  /** Every description that is named has at least so many references. */
  ghost predicate Covered(fds: seq<OpenFile>, names: multiset<FileDescription>) {
    forall fd | fd in names :: names[fd] <= Refs(fds, fd)
  }

  predicate IsFile(f: OpenFile, inodeNum: nat, fs: nat) {
    f.src == FILESYSTEM && f.fd.inodeNum == inodeNum && f.fd.fs == fs
  }

  // The description of a file: that of the first entry for it.
  function FileOf(fds: seq<OpenFile>, inodeNum: nat, fs: nat): FileDescription? {
    if fds == [] then null else if IsFile(fds[0], inodeNum, fs) then fds[0].fd else FileOf(fds[1..], inodeNum, fs)
  }

  lemma {:induction false} FileAt(fds: seq<OpenFile>, i: nat, inodeNum: nat, fs: nat)
    requires i <= |fds| && (forall j | 0 <= j < i :: !IsFile(fds[j], inodeNum, fs)) && (i < |fds| ==> IsFile(fds[i], inodeNum, fs))
    ensures FileOf(fds, inodeNum, fs) == if i < |fds| then fds[i].fd else null
  {
    if i > 0 {
      FileAt(fds[1..], i - 1, inodeNum, fs);
    }
  }

  // The file of a description that is found is the one asked for.
  lemma {:induction false} FoundFile(fds: seq<OpenFile>, inodeNum: nat, fs: nat)
    ensures var fd := FileOf(fds, inodeNum, fs);
            fd != null ==> fd.inodeNum == inodeNum && fd.fs == fs && InTable(fds, fd)
  {
    if fds != [] {
      FoundFile(fds[1..], inodeNum, fs);
      var fd := FileOf(fds, inodeNum, fs);
      if fd != null && !IsFile(fds[0], inodeNum, fs) {
        var i :| 0 <= i < |fds[1..]| && fds[1..][i].fd == fd;
        assert fds[i + 1].fd == fd;
      }
    }
  }

  // Reference counts do not matter for what is found.
  lemma {:induction false} SameFiles(fds: seq<OpenFile>, fds': seq<OpenFile>, inodeNum: nat, fs: nat)
    requires |fds'| == |fds| && forall i | 0 <= i < |fds| :: fds'[i].src == fds[i].src && fds'[i].fd == fds[i].fd
    ensures FileOf(fds', inodeNum, fs) == FileOf(fds, inodeNum, fs)
  {
    if fds != [] {
      SameFiles(fds[1..], fds'[1..], inodeNum, fs);
    }
  }

  lemma {:induction false} FileAdded(fds: seq<OpenFile>, f: OpenFile, inodeNum: nat, fs: nat)
    ensures FileOf(fds + [f], inodeNum, fs) ==
              if FileOf(fds, inodeNum, fs) != null then FileOf(fds, inodeNum, fs) else if IsFile(f, inodeNum, fs) then f.fd else null
  {
    if fds != [] {
      assert (fds + [f])[1..] == fds[1..] + [f];
      FileAdded(fds[1..], f, inodeNum, fs);
    }
  }

  class FileDescriptionManager {
    var fds: seq<OpenFile>
    // The descriptions that were deleted.
    ghost var released: set<FileDescription>

    constructor ()
      ensures Valid() && fds == [] && released == {}
    {
      fds, released := [], {};
    }

    ghost predicate Valid()
      reads this
    {
      Unique(fds) && forall i | 0 <= i < |fds| :: fds[i].fd !in released
    }

    // The place of a description in the table.
    method Find(fd: FileDescription) returns (i: nat)
      requires Valid()
      ensures i <= |fds| && (i < |fds| ==> fds[i].fd == fd) && (i == |fds| <==> !InTable(fds, fd))
    {
      i := 0;
      while i < |fds| && fds[i].fd != fd
        invariant i <= |fds| && forall j | 0 <= j < i :: fds[j].fd != fd
      {
        i := i + 1;
      }
    }

    // fetch_inode_fd: the description of a file that is open, with one more reference.
    method FetchInodeFd(inodeNum: nat, fs: nat) returns (fd: FileDescription?)
      requires Valid()
      modifies this`fds
      ensures Valid() && |fds| == |old(fds)| && fd == FileOf(old(fds), inodeNum, fs)
      ensures forall x :: InTable(fds, x) <==> InTable(old(fds), x)
      ensures forall x :: Refs(fds, x) == Refs(old(fds), x) + if x == fd then 1 else 0
      ensures forall inodeNum, fs :: FileOf(fds, inodeNum, fs) == FileOf(old(fds), inodeNum, fs)
      ensures Counts(fds) == Counts(old(fds)) + if fd == null then multiset{} else multiset{fd as FileDescription}
      ensures fd == null ==> fds == old(fds) && forall i | 0 <= i < |fds| :: !IsFile(fds[i], inodeNum, fs)
      ensures fd != null ==> fd.inodeNum == inodeNum && fd.fs == fs && InTable(fds, fd)
    {
      var i := 0;
      while i < |fds| && !IsFile(fds[i], inodeNum, fs)
        invariant i <= |fds| && fds == old(fds) && forall j | 0 <= j < i :: !IsFile(fds[j], inodeNum, fs)
      {
        i := i + 1;
      }
      FileAt(fds, i, inodeNum, fs);
      if i == |fds| {
        return null;
      }
      Counted(i, fds[i].refcount + 1);
      fd := fds[i].fd;
      CountsMoved(fds, fds[i := fds[i].(refcount := fds[i].refcount + 1)], multiset{}, multiset{fd as FileDescription});
      fds := fds[i := fds[i].(refcount := fds[i].refcount + 1)];
    }

    lemma Counted(i: nat, n: nat)
      requires Unique(fds) && i < |fds|
      ensures var fds' := fds[i := fds[i].(refcount := n)];
              && Unique(fds') && Refs(fds, fds[i].fd) == fds[i].refcount
              && (forall x :: InTable(fds', x) <==> InTable(fds, x))
              && (forall x :: Refs(fds', x) == if x == fds[i].fd then n else Refs(fds, x))
              && forall inodeNum, fs :: FileOf(fds', inodeNum, fs) == FileOf(fds, inodeNum, fs)
    {
      var fds' := fds[i := fds[i].(refcount := n)];
      RefsAt(fds, i);
      forall x
        ensures Refs(fds', x) == if x == fds[i].fd then n else Refs(fds, x)
        ensures InTable(fds', x) <==> InTable(fds, x)
      {
        RefsSet(fds, i, n, x);
        assert forall j | 0 <= j < |fds| :: fds'[j].fd == fds[j].fd;
      }
      forall inodeNum, fs
        ensures FileOf(fds', inodeNum, fs) == FileOf(fds, inodeNum, fs)
      {
        SameFiles(fds, fds', inodeNum, fs);
      }
    }

    // save_fd: a new description, without references.
    method SaveFd(fd: FileDescription, src: Source)
      requires Valid() && !InTable(fds, fd) && fd !in released
      modifies this`fds
      ensures Valid() && forall x :: InTable(fds, x) <==> x == fd || InTable(old(fds), x)
      ensures forall x :: Refs(fds, x) == if x == fd then 0 else Refs(old(fds), x)
      ensures Counts(fds) == Counts(old(fds))
      ensures forall inodeNum, fs ::
                FileOf(fds, inodeNum, fs) ==
                if FileOf(old(fds), inodeNum, fs) != null then FileOf(old(fds), inodeNum, fs)
                else if src == FILESYSTEM && fd.inodeNum == inodeNum && fd.fs == fs then fd else null
    {
      ghost var was := fds;
      forall inodeNum, fs
        ensures FileOf(was + [OpenFile(src, 0, fd)], inodeNum, fs) ==
                if FileOf(was, inodeNum, fs) != null then FileOf(was, inodeNum, fs)
                else if src == FILESYSTEM && fd.inodeNum == inodeNum && fd.fs == fs then fd else null
      {
        FileAdded(was, OpenFile(src, 0, fd), inodeNum, fs);
      }
      fds := fds + [OpenFile(src, 0, fd)];
      assert fds[..|was|] == was && fds[|was|].fd == fd;
      forall x
        ensures InTable(fds, x) <==> x == fd || InTable(was, x)
      {
        assert forall i | 0 <= i < |was| :: fds[i] == was[i];
      }
      NotInTable(was, fd);
      forall x
        ensures Refs(fds, x) == Refs(was, x)
      {
      }
      CountsMoved(was, fds, multiset{}, multiset{});
      Cancelled(Counts(fds), Counts(was), multiset{});
    }

    method Open(fd: FileDescription)
      requires Valid()
      modifies this`fds
      ensures Valid() && forall x :: InTable(fds, x) <==> InTable(old(fds), x)
      ensures forall x :: Refs(fds, x) == Refs(old(fds), x) + if x == fd && InTable(old(fds), fd) then 1 else 0
      ensures Counts(fds) == Counts(old(fds)) + if InTable(old(fds), fd) then multiset{fd} else multiset{}
      ensures forall inodeNum, fs :: FileOf(fds, inodeNum, fs) == FileOf(old(fds), inodeNum, fs)
    {
      var i := Find(fd);
      if i < |fds| {
        Counted(i, fds[i].refcount + 1);
        CountsMoved(fds, fds[i := fds[i].(refcount := fds[i].refcount + 1)], multiset{}, multiset{fd});
        fds := fds[i := fds[i].(refcount := fds[i].refcount + 1)];
      }
    }

    /** close: one reference less; with the last one the description is deleted. */
    method Close(fd: FileDescription) returns (err: Error)
      requires Valid()
      modifies this
      ensures Valid() && (err == EBADF <==> !InTable(old(fds), fd))
      ensures released == old(released) + if InTable(old(fds), fd) && Refs(old(fds), fd) <= 1 then {fd} else {}
      ensures forall x :: InTable(fds, x) <==> InTable(old(fds), x) && !(x == fd && Refs(old(fds), fd) <= 1)
      ensures forall x :: Refs(fds, x) == if x == fd && Refs(old(fds), x) > 0 then Refs(old(fds), x) - 1 else Refs(old(fds), x)
    {
      hide FileOf;
      var i := Find(fd);
      if i == |fds| {
        NotInTable(fds, fd);
        return EBADF;
      }
      err := ENOERR;
      RefsAt(fds, i);
      if fds[i].refcount > 0 {
        Counted(i, fds[i].refcount - 1);
        fds := fds[i := fds[i].(refcount := fds[i].refcount - 1)];
      }
      if fds[i].refcount > 0 {
        return;
      }
      Gone(i);
      released := released + {fd};
      fds := fds[..i] + fds[i + 1..];
    }

    lemma Gone(i: nat)
      requires Unique(fds) && i < |fds|
      ensures var fds' := fds[..i] + fds[i + 1..];
              && Unique(fds') && (forall j | 0 <= j < |fds'| :: fds'[j] in fds && fds'[j].fd != fds[i].fd)
              && (forall x :: InTable(fds', x) <==> InTable(fds, x) && x != fds[i].fd)
              && forall x :: Refs(fds', x) == if x == fds[i].fd then 0 else Refs(fds, x)
    {
      var fds' := fds[..i] + fds[i + 1..];
      forall x
        ensures Refs(fds', x) == if x == fds[i].fd then 0 else Refs(fds, x)
        ensures InTable(fds', x) <==> InTable(fds, x) && x != fds[i].fd
      {
        RefsRemoved(fds, i, x);
        if InTable(fds, x) && x != fds[i].fd {
          var j :| 0 <= j < |fds| && fds[j].fd == x;
          assert fds'[if j < i then j else j - 1] == fds[j];
        }
      }
    }
  }

  const OPEN_MAX := 256
  const O_RDONLY := 1
  const O_WRONLY := 2

  // What a call returns: a handle, or an error.
  datatype HandleResult = Ok(number: nat) | EMFILE | BADF | IO

  // No deleted description is named.
  lemma NoneDangles(manager: FileDescriptionManager, names: multiset<FileDescription>, fd: FileDescription)
    requires manager.Valid() && Covered(manager.fds, names) && fd in names && names[fd] > 0
    ensures InTable(manager.fds, fd) && fd !in manager.released
  {
    if !InTable(manager.fds, fd) {
      NotInTable(manager.fds, fd);
    }
  }

  lemma NamesGrow(fds: seq<OpenFile>, fds': seq<OpenFile>, names: multiset<FileDescription>,
                  names': multiset<FileDescription>, others: multiset<FileDescription>, fd: FileDescription)
    requires Covered(fds, names + others) && names' == names + multiset{fd}
    requires forall x :: Refs(fds', x) == Refs(fds, x) + if x == fd then 1 else 0
    ensures Covered(fds', names' + others)
  {
    hide Refs;
    forall x | x in names' + others
      ensures (names' + others)[x] <= Refs(fds', x)
    {
      assert (names' + others)[x] == (names + others)[x] + if x == fd then 1 else 0;
    }
  }

  lemma NamesShrink(fds: seq<OpenFile>, fds': seq<OpenFile>, names: multiset<FileDescription>,
                    names': multiset<FileDescription>, others: multiset<FileDescription>, fd: FileDescription)
    requires Covered(fds, names + others) && names == names' + multiset{fd}
    requires forall x :: Refs(fds', x) == if x == fd && Refs(fds, x) > 0 then Refs(fds, x) - 1 else Refs(fds, x)
    ensures Covered(fds', names' + others)
  {
    hide Refs;
    forall x | x in names' + others
      ensures (names' + others)[x] <= Refs(fds', x)
    {
      assert (names' + others)[x] == (names + others)[x] - if x == fd then 1 else 0;
    }
  }

  // A call of a process that concerns its handles.
  datatype Call =
    | Open(inodeNum: nat, fs: nat, perms: nat)
    | Close(n: int)
    | Dup(src: int, dst: int)
    | Pipe
    | Fork
    | Exit

  function OpenCount(handles: seq<Handle>): nat {
    if handles == [] then 0 else OpenCount(handles[..|handles| - 1]) + if handles[|handles| - 1].open then 1 else 0
  }

  // A pipe is asked for when one handle is free.
  predicate HalfPipe(call: Call, handles: seq<Handle>) {
    call.Pipe? && OpenCount(handles) == OPEN_MAX - 1
  }

  lemma SlotsTaken(hs: seq<Handle>)
    requires |hs| <= OPEN_MAX && forall i | 0 <= i < |hs| && hs[i].open :: hs[i].fd != null
    ensures OpenCount(hs) <= OPEN_MAX && (OpenCount(hs) == OPEN_MAX <==> Full(hs))
  {
    NameCount(hs);
  }

  lemma NothingLess(counts: multiset<FileDescription>)
    ensures counts + multiset{} == counts && multiset{} + counts == counts
  {
  }

  // The first free slot, or the end.
  function FirstFree(hs: seq<Handle>): (i: nat)
    ensures i <= |hs| && (forall j | 0 <= j < i :: hs[j].open) && (i < |hs| ==> !hs[i].open)
  {
    if hs == [] || !hs[0].open then 0 else 1 + FirstFree(hs[1..])
  }

  lemma FirstFreeIs(hs: seq<Handle>, i: nat)
    requires i <= |hs| && (forall j | 0 <= j < i :: hs[j].open) && (i < |hs| ==> !hs[i].open)
    ensures i == FirstFree(hs)
  {
  }

  predicate Full(hs: seq<Handle>) {
    |hs| == OPEN_MAX && forall i | 0 <= i < |hs| :: hs[i].open
  }

  // A slot names a description; one that was in use before keeps its flags.
  function Taken(hs: seq<Handle>, fd: FileDescription, perms: nat): (hs': seq<Handle>)
    ensures |hs'| == if FirstFree(hs) < |hs| then |hs| else |hs| + 1
    ensures hs'[FirstFree(hs)] == Handle(true, fd, 0, if FirstFree(hs) < |hs| then hs[FirstFree(hs)].flags else perms)
    ensures forall i | 0 <= i < |hs| && i != FirstFree(hs) :: hs'[i] == hs[i]
  {
    var i := FirstFree(hs);
    if i < |hs| then hs[i := Handle(true, fd, 0, hs[i].flags)] else hs + [Handle(true, fd, 0, perms)]
  }

  // What duplicate_handle leaves of the handles.
  function Duplicated(hs: seq<Handle>, src: int, dst: int): (hs': seq<Handle>)
    ensures |hs| <= |hs'|
  {
    if !(0 <= src < |hs|) || !hs[src].open || hs[src].fd == null || (dst != -1 && !(0 <= dst < OPEN_MAX)) then hs
    else if 0 <= dst < |hs| && hs[dst].open then hs[dst := if dst == src then Shut(hs[src]) else hs[src]]
    else if Full(hs) then hs
    else Taken(hs, hs[src].fd, hs[src].flags)[FirstFree(hs) := hs[src]]
  }

  // A handle that is closed.
  function Shut(h: Handle): Handle {
    Handle(false, null, h.accessPtr, h.flags)
  }

  // What a call does to the handles of its process; file is the description that an opened file, or a pipe, has.
  ghost predicate Served(call: Call, hs: seq<Handle>, hs': seq<Handle>, file: FileDescription?) {
    match call
    case Open(_, _, perms) => if Full(hs) then hs' == hs else file != null && hs' == Taken(hs, file, perms)
    case Close(n) => hs' == if 0 <= n < |hs| && hs[n].open then hs[n := Shut(hs[n])] else hs
    case Dup(src, dst) => hs' == Duplicated(hs, src, dst)
    case Pipe =>
      if Full(hs) then hs' == hs
      else if file == null then false
      else if OpenCount(hs) == OPEN_MAX - 1 then hs' == Taken(hs, file, O_RDONLY)
      else hs' == Taken(Taken(hs, file, O_RDONLY), file, O_WRONLY)
    case Fork => hs' == hs
    case Exit => hs' == ShutAll(hs)
  }

  // ... and to the references; known says that the file was in the table.
  ghost predicate Counted(call: Call, hs: seq<Handle>, counts: multiset<FileDescription>, counts': multiset<FileDescription>,
                          file: FileDescription?, known: bool) {
    match call
    case Open(_, _, _) =>
      if Full(hs) || file == null then counts' == counts
      else var f: FileDescription := file; counts' == counts + if known then multiset{f, f} else multiset{f}
    case Close(n) => counts' + (if 0 <= n < |hs| && hs[n].open then Named(hs[n]) else multiset{}) == counts
    case Dup(src, dst) =>
      if !(0 <= src < |hs|) || !hs[src].open || (dst != -1 && !(0 <= dst < OPEN_MAX)) then counts' == counts
      else if 0 <= dst < |hs| && hs[dst].open then counts' + Named(hs[dst]) == counts + if dst == src then multiset{} else Named(hs[src])
      else if Full(hs) then counts' == counts
      else counts' == counts + Named(hs[src])
    case Pipe =>
      if OpenCount(hs) >= OPEN_MAX - 1 || file == null then counts' == counts
      else var f: FileDescription := file; counts' == counts + multiset{f, f}
    case Fork => counts' == counts + Names(hs)
    case Exit => counts' + Names(hs) == counts
  }

  // The handles of a child: open ones are as the parent's.
  ghost predicate Copied(hs: seq<Handle>, hs': seq<Handle>) {
    |hs'| == |hs| && forall i | 0 <= i < |hs| :: if hs[i].open then hs'[i] == hs[i] else !hs'[i].open
  }

  function ShutAll(hs: seq<Handle>): (hs': seq<Handle>)
    ensures |hs'| == |hs| && forall i | 0 <= i < |hs| :: hs'[i] == if hs[i].open then Shut(hs[i]) else hs[i]
  {
    seq(|hs|, i requires 0 <= i < |hs| => if hs[i].open then Shut(hs[i]) else hs[i])
  }

  lemma NothingShut(hs: seq<Handle>)
    ensures ShutAll(hs[..0]) + hs[0..] == hs
  {
  }

  lemma ShutOneMore(hs: seq<Handle>, i: nat)
    requires i < |hs|
    ensures var hs1 := ShutAll(hs[..i]) + hs[i..];
            && |hs1| == |hs| && hs1[i] == hs[i]
            && ShutAll(hs[..i + 1]) + hs[i + 1..] == if hs[i].open then hs1[i := Shut(hs[i])] else hs1
  {
  }

  // The descriptions all of whose references are given back.
  ghost function Unreferenced(counts: multiset<FileDescription>, closed: multiset<FileDescription>): set<FileDescription> {
    set fd | fd in closed && counts[fd] == closed[fd]
  }

  lemma NoneUnreferenced(counts: multiset<FileDescription>)
    ensures Unreferenced(counts, multiset{}) == {}
  {
  }

  lemma UnreferencedMore(counts: multiset<FileDescription>, closed: multiset<FileDescription>, fd: FileDescription, refs: nat)
    requires refs + closed[fd] == counts[fd] && refs > 0
    ensures Unreferenced(counts, closed + multiset{fd}) == Unreferenced(counts, closed) + if refs == 1 then {fd} else {}
  {
  }

  lemma NamedIs(h: Handle)
    ensures h.open && h.fd != null ==> Named(h) == multiset{h.fd as FileDescription}
  {
  }

  // One goes from one part to the other.
  lemma Shifted(closed: multiset<FileDescription>, fd: FileDescription, rest: multiset<FileDescription>, rest': multiset<FileDescription>,
                all: multiset<FileDescription>)
    requires (closed + rest == all || rest + closed == all) && rest' + multiset{fd} == rest
    ensures (closed + multiset{fd}) + rest' == all && rest' + (closed + multiset{fd}) == all
  {
  }

  /** A process, with its handles by number. */
  class Process {
    const manager: FileDescriptionManager
    var handles: seq<Handle>

    constructor (manager: FileDescriptionManager)
      ensures this.manager == manager && handles == []
    {
      this.manager, handles := manager, [];
    }

    ghost predicate Proper()
      reads this
    {
      |handles| <= OPEN_MAX && forall i | 0 <= i < |handles| && handles[i].open :: handles[i].fd != null
    }

    // Together with the handles of other processes: every description that is named has the references it needs.
    ghost predicate Safe(others: multiset<FileDescription>)
      reads this, manager
    {
      manager.Valid() && Proper() && Covered(manager.fds, Names(handles) + others)
    }

    predicate IsHandleOpen(n: int)
      reads this
    {
      0 <= n < |handles| && handles[n].open
    }

    // open_handle: the first free slot names the description, which gets one more reference.  A slot that was in
    // use before keeps the flags it had then: the handle has those asked for only if they are the same, or the
    // slot is new.
    method OpenHandle(fd: FileDescription, perms: nat, ghost others: multiset<FileDescription>)
      returns (r: HandleResult)
      requires Safe(others) && InTable(manager.fds, fd)
      modifies this, manager`fds
      ensures Safe(others) && (r.Ok? || r.EMFILE?)
      ensures r.EMFILE? <==> |old(handles)| == OPEN_MAX && forall i | 0 <= i < |old(handles)| :: old(handles)[i].open
      ensures r.EMFILE? ==> handles == old(handles) && manager.fds == old(manager.fds)
      ensures r.Ok? ==> r.number == FirstFree(old(handles)) && handles == Taken(old(handles), fd, perms)
      ensures forall inodeNum, fs :: FileOf(manager.fds, inodeNum, fs) == FileOf(old(manager.fds), inodeNum, fs)
      ensures r.Ok? ==> Names(handles) == Names(old(handles)) + multiset{fd} && IsHandleOpen(r.number)
                        && handles[r.number].fd == fd && handles[r.number].accessPtr == 0
      ensures r.Ok? ==> handles[r.number].flags ==
                          if r.number < |old(handles)| then old(handles)[r.number].flags else perms
      ensures r.Ok? ==> |old(handles)| <= |handles| && !old(IsHandleOpen(r.number))
                        && forall i | 0 <= i < |old(handles)| && i != r.number :: handles[i] == old(handles)[i]
      ensures forall x :: InTable(manager.fds, x) <==> InTable(old(manager.fds), x)
      ensures r.Ok? ==> Counts(manager.fds) == Counts(old(manager.fds)) + multiset{fd}
      ensures r.Ok? ==> forall x :: Refs(manager.fds, x) == Refs(old(manager.fds), x) + if x == fd then 1 else 0
    {
      hide Refs, Counts, Names, Unique, FileOf, FirstFree;
      var i := 0;
      while i < |handles| && handles[i].open
        invariant i <= |handles| && handles == old(handles) && manager.fds == old(manager.fds)
        invariant forall j | 0 <= j < i :: handles[j].open
      {
        i := i + 1;
      }
      FirstFreeIs(handles, i);
      if i == OPEN_MAX {
        return EMFILE;
      }
      ghost var hs, fds := handles, manager.fds;
      if i < |handles| {
        NamesOfSlot(handles, i, handles[i].(open := true, fd := fd, accessPtr := 0));
        handles := handles[i := handles[i].(open := true, fd := fd, accessPtr := 0)];
      } else {
        NamesAdded(handles, Handle(true, fd, 0, perms));
        handles := handles + [Handle(true, fd, 0, perms)];
      }
      manager.Open(fd);
      NamesGrow(fds, manager.fds, Names(hs), Names(handles), others, fd);
      r := Ok(i);
    }

    // close_handle: the handle is free, and its description has one reference less.
    method CloseHandle(n: nat, ghost others: multiset<FileDescription>) returns (err: Error)
      requires Safe(others) && n < |handles|
      modifies this, manager
      ensures Safe(others) && |handles| == |old(handles)| && !handles[n].open
      ensures forall i | 0 <= i < |handles| && i != n :: handles[i] == old(handles)[i]
      ensures err == EBADF <==> !old(handles)[n].open
      ensures Names(handles) + Named(old(handles)[n]) == Names(old(handles))
      ensures old(handles)[n].open ==> old(handles)[n].fd != null && handles == old(handles)[n := Shut(old(handles)[n])]
      // The description loses one reference, and with the last one it is deleted.
      ensures old(handles)[n].open ==>
                var fd := old(handles)[n].fd;
                && 0 < Refs(old(manager.fds), fd)
                && (forall x :: Refs(manager.fds, x) == Refs(old(manager.fds), x) - if x == fd then 1 else 0)
                && Counts(manager.fds) + multiset{fd} == Counts(old(manager.fds))
                && (forall x :: InTable(manager.fds, x) <==> InTable(old(manager.fds), x) && !(x == fd && Refs(old(manager.fds), fd) == 1))
                && manager.released == old(manager.released) + if Refs(old(manager.fds), fd) == 1 then {fd} else {}
      ensures !old(handles)[n].open ==> handles == old(handles) && manager.fds == old(manager.fds) && manager.released == old(manager.released)
    {
      hide Refs, Counts, Names, Unique;
      if !handles[n].open {
        NamesOfSlot(handles, n, handles[n]);
        return EBADF;
      }
      ghost var hs, fds := handles, manager.fds;
      var fd := handles[n].fd;
      NamesOfSlot(handles, n, Handle(false, null, handles[n].accessPtr, handles[n].flags));
      assert (Names(hs) + others)[fd] > 0 by { assert fd in Named(hs[n]); }
      NoneDangles(manager, Names(hs) + others, fd);
      assert 0 < (Names(hs) + others)[fd] <= Refs(fds, fd);
      err := manager.Close(fd);
      handles := handles[n := Handle(false, null, handles[n].accessPtr, handles[n].flags)];
      CountsMoved(fds, manager.fds, multiset{fd as FileDescription}, multiset{});
      NamesShrink(fds, manager.fds, Names(hs), Names(handles), others, fd);
    }

    /** duplicate_handle, behind dup (no target) and dup2. */
    method DuplicateHandle(src: int, dst: int, ghost others: multiset<FileDescription>) returns (r: HandleResult)
      requires Safe(others)
      modifies this, manager
      ensures Safe(others)
      ensures r.BADF? <==> !old(IsHandleOpen(src)) || (dst != -1 && !(0 <= dst < OPEN_MAX))
      ensures r.BADF? ==> handles == old(handles) && manager.fds == old(manager.fds)
      ensures r.EMFILE? ==> handles == old(handles)
      ensures r.Ok? || r.BADF? || r.EMFILE?
      ensures r.EMFILE? <==> old(IsHandleOpen(src)) && dst == -1 && Full(old(handles))
      ensures r.EMFILE? ==> manager.fds == old(manager.fds)
      ensures r.Ok? && !old(IsHandleOpen(dst)) ==> r.number == FirstFree(old(handles)) && manager.released == old(manager.released)
      ensures handles == Duplicated(old(handles), src, dst)
      // The description that is named again has one reference more, and one that dst named before has one less.
      ensures r.Ok? ==>
                Counts(manager.fds) + (if old(IsHandleOpen(dst)) then Named(old(handles)[dst]) else multiset{})
                == Counts(old(manager.fds)) + (if r.number == src then multiset{} else Named(old(handles)[src]))
      ensures r.Ok? && old(IsHandleOpen(dst)) ==>
                && old(handles)[dst].fd != null
                && manager.released ==
                     old(manager.released) + if Refs(old(manager.fds), old(handles)[dst].fd) == 1 then {old(handles)[dst].fd} else {}
      ensures r.Ok? ==> r.number < |handles| && |old(handles)| <= |handles|
                        && forall i | 0 <= i < |old(handles)| && i != r.number :: handles[i] == old(handles)[i]
      ensures r.Ok? ==> if r.number == src then !handles[src].open else handles[r.number] == old(handles)[src]
      ensures r.Ok? && old(IsHandleOpen(dst)) ==> r.number == dst
      ensures r.Ok? && !old(IsHandleOpen(dst)) ==> !old(IsHandleOpen(r.number))
    {
      hide Refs, Counts, Names, Unique, FileOf, FirstFree, Taken;
      if !IsHandleOpen(src) || (dst != -1 && !(0 <= dst < OPEN_MAX)) {
        return BADF;
      }
      ghost var hs := handles;
      if dst != -1 && IsHandleOpen(dst) {
        r := ReplaceHandle(src, dst, others);
        return;
      }
      var fdhSrc := handles[src];
      NamesThere(src, others);
      r := OpenHandle(fdhSrc.fd, fdhSrc.flags, others);
      if r.Ok? {
        NamesSame(handles, r.number, handles[src]);
        handles := handles[r.number := handles[src]];
      }
    }

    // The branch for an open target: it is closed, and then it is a copy of the source, which may be closed now.
    method ReplaceHandle(src: nat, dst: nat, ghost others: multiset<FileDescription>) returns (r: HandleResult)
      requires Safe(others) && IsHandleOpen(src) && IsHandleOpen(dst)
      modifies this, manager
      ensures Safe(others) && r == Ok(dst) && old(handles)[dst].fd != null && Refs(old(manager.fds), old(handles)[dst].fd) > 0
      ensures handles == old(handles)[dst := if dst == src then Shut(old(handles)[src]) else old(handles)[src]]
      ensures Counts(manager.fds) + Named(old(handles)[dst])
           == Counts(old(manager.fds)) + if dst == src then multiset{} else Named(old(handles)[src])
      ensures manager.released ==
                old(manager.released) + if Refs(old(manager.fds), old(handles)[dst].fd) == 1 then {old(handles)[dst].fd} else {}
    {
      hide Refs, Counts, Names, Unique, FileOf;
      var err := CloseHandle(dst, others);
      if err != ENOERR {
        return IO;
      }
      CopyHandle(src, dst, others);
      return Ok(dst);
    }

    // An open handle's description is in the table.
    lemma NamesThere(n: nat, others: multiset<FileDescription>)
      requires Safe(others) && IsHandleOpen(n)
      ensures handles[n].fd != null && InTable(manager.fds, handles[n].fd) && handles[n].fd !in manager.released
    {
      NamesOfSlot(handles, n, Handle(false, null, 0, 0));
      assert handles[n].fd in Named(handles[n]);
      assert (Names(handles) + others)[handles[n].fd] > 0;
      NoneDangles(manager, Names(handles) + others, handles[n].fd);
    }

    // A closed handle becomes a copy of another one; its description, if it names one, gets one more reference.
    method CopyHandle(src: nat, dst: nat, ghost others: multiset<FileDescription>)
      requires Safe(others) && src < |handles| && dst < |handles| && !handles[dst].open
      modifies this, manager`fds
      ensures Safe(others) && handles == old(handles)[dst := old(handles)[src]] && manager.released == old(manager.released)
      ensures forall x :: InTable(manager.fds, x) <==> InTable(old(manager.fds), x)
      ensures Counts(manager.fds) == Counts(old(manager.fds)) + Named(old(handles)[src])
    {
      hide Refs, Counts, Names, Unique;
      ghost var hs, fds := handles, manager.fds;
      var h := handles[src];
      NamesOfSlot(handles, dst, h);
      if h.open {
        NamesThere(src, others);
        manager.Open(h.fd);
        NamesGrow(fds, manager.fds, Names(hs), Names(hs[dst := h]), others, h.fd);
      }
      handles := handles[dst := h];
    }

    /**
     sys_open, of a file that may be opened: its description is found in the table or made, and a handle
     names it, or else the reference is given back.
     */
    method SysOpen(inodeNum: nat, fs: nat, perms: nat, ghost others: multiset<FileDescription>)
      returns (r: HandleResult)
      requires Safe(others)
      modifies this, manager
      ensures Safe(others) && (r.Ok? || r.EMFILE?)
      ensures r.Ok? ==> IsHandleOpen(r.number) && handles[r.number].fd.inodeNum == inodeNum && handles[r.number].fd.fs == fs
                        && !old(IsHandleOpen(r.number))
      ensures r.EMFILE? <==> |old(handles)| == OPEN_MAX && forall i | 0 <= i < |old(handles)| :: old(handles)[i].open
      ensures r.EMFILE? ==> handles == old(handles)
      ensures forall i | 0 <= i < |old(handles)| && (r.Ok? ==> i != r.number) :: i < |handles| && handles[i] == old(handles)[i]
      ensures r.Ok? ==>
                (handles[r.number].flags == perms
                 <==> r.number >= |old(handles)| || old(handles)[r.number].flags == perms)
      ensures r.Ok? ==>
                var fd := handles[r.number].fd;
                fd != null && Refs(manager.fds, fd) == Refs(old(manager.fds), fd) + if InTable(old(manager.fds), fd) then 2 else 1
      // The description is that of the file, the one in the table if there was one; no other has a reference more.
      ensures r.Ok? ==> r.number == FirstFree(old(handles)) && FileOf(manager.fds, inodeNum, fs) != null
                        && handles == Taken(old(handles), FileOf(manager.fds, inodeNum, fs), perms)
                        && manager.released == old(manager.released)
      ensures r.Ok? && FileOf(old(manager.fds), inodeNum, fs) != null ==>
                FileOf(manager.fds, inodeNum, fs) == FileOf(old(manager.fds), inodeNum, fs)
      ensures r.Ok? && FileOf(old(manager.fds), inodeNum, fs) == null ==> !InTable(old(manager.fds), FileOf(manager.fds, inodeNum, fs))
      ensures r.Ok? ==>
                var f := FileOf(manager.fds, inodeNum, fs) as FileDescription;
                var known := FileOf(old(manager.fds), inodeNum, fs) != null;
                Counts(manager.fds) == Counts(old(manager.fds)) + if known then multiset{f, f} else multiset{f}
      ensures !r.Ok? ==> Counts(manager.fds) == Counts(old(manager.fds))
    {
      hide Refs, Counts, Names, Unique, FileOf, FirstFree;
      ghost var names := Names(handles) + others;
      var fd := OpenFile(inodeNum, fs, names);
      r := OpenHandle(fd, perms, others);
      if !r.Ok? {
        GiveBack(fd, names);
        Cancelled(Counts(manager.fds), Counts(old(manager.fds)),
                  if FileOf(old(manager.fds), inodeNum, fs) == null then multiset{} else multiset{fd});
      }
    }

    // The description of a file: the one in the table, which gets a reference, or a new one without any.
    method OpenFile(inodeNum: nat, fs: nat, ghost names: multiset<FileDescription>) returns (fd: FileDescription)
      requires manager.Valid() && Covered(manager.fds, names)
      modifies manager`fds
      ensures manager.Valid() && Covered(manager.fds, names) && fd == FileOf(manager.fds, inodeNum, fs) && InTable(manager.fds, fd)
      ensures fd.inodeNum == inodeNum && fd.fs == fs && (names[fd] == 0 || names[fd] < Refs(manager.fds, fd))
      ensures if FileOf(old(manager.fds), inodeNum, fs) == null then
                !InTable(old(manager.fds), fd) && Refs(manager.fds, fd) == 0 && Refs(old(manager.fds), fd) == 0
                && Counts(manager.fds) == Counts(old(manager.fds))
              else
                && fd == FileOf(old(manager.fds), inodeNum, fs) && InTable(old(manager.fds), fd)
                && Refs(manager.fds, fd) == Refs(old(manager.fds), fd) + 1
                && Counts(manager.fds) == Counts(old(manager.fds)) + multiset{fd}
      ensures forall x :: InTable(manager.fds, x) <==> x == fd || InTable(old(manager.fds), x)
    {
      hide Refs, Counts, Names, Unique, FileOf;
      ghost var fds := manager.fds;
      var found := manager.FetchInodeFd(inodeNum, fs);
      if found == null {
        fd := new FileDescription(inodeNum, fs);
        NotInTable(manager.fds, fd);
        manager.SaveFd(fd, FILESYSTEM);
      } else {
        fd := found;
      }
      MoreRefs(fds, manager.fds, names);
    }

    /**
     sys_pipe: two handles name a new description, or none does.  When there is room for one handle only, that
     handle stays behind while its description is deleted: this is the one case in which the handles of the
     system are not safe afterwards.
     */
    method SysPipe(ghost others: multiset<FileDescription>) returns (rd: HandleResult, wr: HandleResult, pipe: FileDescription)
      requires Safe(others)
      modifies this, manager
      ensures Safe(others) <==> OpenCount(old(handles)) != OPEN_MAX - 1
      ensures OpenCount(old(handles)) == OPEN_MAX - 1 ==>
                rd.Ok? && wr.EMFILE? && IsHandleOpen(rd.number) && handles[rd.number].fd in manager.released
      ensures OpenCount(old(handles)) < OPEN_MAX - 1 ==>
                && rd.Ok? && wr.Ok? && rd.number != wr.number && IsHandleOpen(rd.number) && IsHandleOpen(wr.number)
                && handles[rd.number].fd == handles[wr.number].fd != null
      ensures OpenCount(old(handles)) == OPEN_MAX ==> rd.EMFILE? && wr.EMFILE? && handles == old(handles)
      ensures forall i | 0 <= i < |old(handles)| && old(handles)[i].open :: i < |handles| && handles[i] == old(handles)[i]
      // The first end is to be read, the second to be written, and the description is new.
      ensures !InTable(old(manager.fds), pipe)
      ensures rd.Ok? ==> rd.number == FirstFree(old(handles))
      ensures rd.Ok? && wr.Ok? ==>
                && wr.number == FirstFree(Taken(old(handles), pipe, O_RDONLY))
                && handles == Taken(Taken(old(handles), pipe, O_RDONLY), pipe, O_WRONLY)
                && Counts(manager.fds) == Counts(old(manager.fds)) + multiset{pipe, pipe}
      ensures rd.Ok? && !wr.Ok? ==> handles == Taken(old(handles), pipe, O_RDONLY)
      ensures !wr.Ok? ==> Counts(manager.fds) == Counts(old(manager.fds))
    {
      hide Refs, Counts, Names, Unique, FileOf, FirstFree, Taken, OpenCount, Full;
      ghost var fds, names := manager.fds, Names(handles) + others;
      pipe := NewPipe(names);
      NameCount(handles);
      rd := OpenHandle(pipe, O_RDONLY, others);
      wr := EMFILE;
      if !rd.Ok? {
        GiveBack(pipe, names);
        Cancelled(Counts(manager.fds), Counts(fds), multiset{});
        return;
      }
      NameCount(handles);
      ghost var fds1 := manager.fds;
      ghost var names1 := Names(handles);
      assert Refs(manager.fds, pipe) == 1;
      wr := OpenHandle(pipe, O_WRONLY, others);
      if !wr.Ok? {
        var _ := manager.Close(pipe);
        assert !InTable(manager.fds, pipe);
        NotInTable(manager.fds, pipe);
        CountsMoved(fds1, manager.fds, multiset{pipe}, multiset{});
        Cancelled(Counts(manager.fds), Counts(fds), multiset{pipe});
        assert (names1 + others)[pipe] > 0;
      } else {
        assert Counts(fds) + multiset{pipe} + multiset{pipe} == Counts(fds) + multiset{pipe, pipe};
      }
    }

    // create_pipe: a new description without references.
    method NewPipe(ghost names: multiset<FileDescription>) returns (pipe: FileDescription)
      requires manager.Valid() && Covered(manager.fds, names)
      modifies manager`fds
      ensures manager.Valid() && Covered(manager.fds, names) && InTable(manager.fds, pipe) && !InTable(old(manager.fds), pipe) && fresh(pipe)
      ensures Refs(manager.fds, pipe) == 0 && Refs(old(manager.fds), pipe) == 0 && names[pipe] == 0
      ensures Counts(manager.fds) == Counts(old(manager.fds))
    {
      hide Refs, Counts, Names, Unique, FileOf;
      ghost var fds := manager.fds;
      pipe := new FileDescription(0, 0);
      NotInTable(manager.fds, pipe);
      manager.SaveFd(pipe, PIPE);
      MoreRefs(fds, manager.fds, names);
    }

    /**
     A file is opened, and the handle closed again.  Its description is deleted if it was not in the table before;
     otherwise it keeps one reference too many, which nothing takes back.
     */
    method OpenAndClose(inodeNum: nat, fs: nat, perms: nat, ghost others: multiset<FileDescription>) returns (fd: FileDescription)
      requires Safe(others) && !Full(handles)
      modifies this, manager
      ensures var (n, hs) := (FirstFree(old(handles)), Taken(old(handles), fd, perms));
              Safe(others) && handles == hs[n := Shut(hs[n])]
      ensures FileOf(old(manager.fds), inodeNum, fs) == null ==>
                && !InTable(old(manager.fds), fd) && !InTable(manager.fds, fd) && manager.released == old(manager.released) + {fd}
                && Counts(manager.fds) == Counts(old(manager.fds))
      ensures FileOf(old(manager.fds), inodeNum, fs) != null ==>
                && fd == FileOf(old(manager.fds), inodeNum, fs) && InTable(manager.fds, fd) && manager.released == old(manager.released)
                && Counts(manager.fds) == Counts(old(manager.fds)) + multiset{fd}
    {
      hide Refs, Counts, Names, Unique, FileOf, FirstFree, Taken;
      ghost var fds := manager.fds;
      FoundFile(fds, inodeNum, fs);
      var r := SysOpen(inodeNum, fs, perms, others);
      fd := handles[r.number].fd;
      FoundFile(manager.fds, inodeNum, fs);
      var _ := CloseHandle(r.number, others);
      if FileOf(fds, inodeNum, fs) == null {
        NotInTable(fds, fd);
        Cancelled(Counts(manager.fds), Counts(fds), multiset{fd});
      } else {
        assert Counts(fds) + multiset{fd, fd} == Counts(fds) + multiset{fd} + multiset{fd};
        Cancelled(Counts(manager.fds), Counts(fds) + multiset{fd}, multiset{fd});
      }
    }

    // close, when the process ends: all its handles.  Each description loses as many references as it had names, and
    // those are deleted that have no others.
    method CloseAll(ghost others: multiset<FileDescription>)
      requires Safe(others)
      modifies this, manager
      ensures Safe(others) && Names(handles) == multiset{} && handles == ShutAll(old(handles))
      ensures Counts(manager.fds) + Names(old(handles)) == Counts(old(manager.fds))
      ensures manager.released == old(manager.released) + Unreferenced(Counts(old(manager.fds)), Names(old(handles)))
    {
      hide Safe, Counts, Names, Named, Unreferenced;
      var i := 0;
      ghost var hs, counts, closed := handles, Counts(manager.fds), multiset{};
      NothingShut(handles);
      NoneUnreferenced(counts);
      NothingLess(Names(hs));
      NothingLess(counts);
      while i < |handles|
        invariant i <= |handles| == |hs| && Safe(others) && forall j | 0 <= j < i :: !handles[j].open
        invariant handles == ShutAll(hs[..i]) + hs[i..]
        invariant closed + Names(handles) == Names(hs) && Counts(manager.fds) + closed == counts
        invariant manager.released == old(manager.released) + Unreferenced(counts, closed)
      {
        ShutOneMore(hs, i);
        if handles[i].open {
          closed := CloseNext(i, others, Names(hs), counts, closed, old(manager.released));
        }
        i := i + 1;
      }
      assert hs[..i] == hs;
      NoNames(handles);
      NothingLess(closed);
    }

    // One of all handles is closed.
    method CloseNext(n: nat, ghost others: multiset<FileDescription>, ghost names: multiset<FileDescription>,
                     ghost counts: multiset<FileDescription>, ghost closed: multiset<FileDescription>, ghost released: set<FileDescription>)
      returns (ghost closed': multiset<FileDescription>)
      requires Safe(others) && IsHandleOpen(n) && closed + Names(handles) == names && Counts(manager.fds) + closed == counts
      requires manager.released == released + Unreferenced(counts, closed)
      modifies this, manager
      ensures Safe(others) && handles == old(handles)[n := Shut(old(handles)[n])]
      ensures closed' + Names(handles) == names && Counts(manager.fds) + closed' == counts
      ensures manager.released == released + Unreferenced(counts, closed')
    {
      hide Refs, Counts, Names, Unique, FileOf, Named, Covered, Unreferenced;
      ghost var names1, counts1, fd := Names(handles), Counts(manager.fds), handles[n].fd;
      CountIsRefs(manager.fds, fd);
      NamedIs(handles[n]);
      var _ := CloseHandle(n, others);
      Shifted(closed, fd, names1, Names(handles), names);
      Shifted(closed, fd, counts1, Counts(manager.fds), counts);
      UnreferencedMore(counts, closed, fd, counts1[fd]);
      closed' := closed + multiset{fd as FileDescription};
    }

    // One handle more, and a reference more if it names a description.
    method Adopt(h: Handle, ghost others: multiset<FileDescription>)
      requires manager.Valid() && Covered(manager.fds, Names(handles) + others)
      requires h.open ==> h.fd != null && InTable(manager.fds, h.fd)
      modifies this, manager`fds
      ensures manager.Valid() && handles == old(handles) + [h] && Covered(manager.fds, Names(handles) + others)
      ensures Counts(manager.fds) == Counts(old(manager.fds)) + Named(h)
    {
      hide Refs, Counts, Names, Unique;
      ghost var fds := manager.fds;
      NamesAdded(handles, h);
      if h.open {
        manager.Open(h.fd);
        NamesGrow(fds, manager.fds, Names(handles), Names(handles + [h]), others, h.fd);
      }
      handles := handles + [h];
    }

    // Copying one more handle copies what it names, and the parent names it, too.
    lemma NextCopied(cs: seq<Handle>, hs: seq<Handle>, i: nat, h: Handle)
      requires i < |hs| && Names(cs) == Names(hs[..i])
      requires h == if hs[i].open then hs[i] else Handle(false, null, 0, 0)
      ensures Names(cs + [h]) == Names(hs[..i + 1])
      ensures h.open && h.fd != null ==> Names(hs)[h.fd] > 0
    {
      hide Names;
      NamesAdded(cs, h);
      NamesAdded(hs[..i], hs[i]);
      assert hs[..i] + [hs[i]] == hs[..i + 1];
      if h.open && h.fd != null {
        NamesOfSlot(hs, i, Handle(false, null, 0, 0));
        assert h.fd in Named(hs[i]);
      }
    }

    /** fork: the child's handles name what the parent's do, and each of them is counted. */
    method Fork(ghost others: multiset<FileDescription>) returns (child: Process)
      requires Safe(others)
      modifies manager`fds
      ensures fresh(child) && child.manager == manager && |child.handles| == |handles|
      ensures forall i | 0 <= i < |handles| ::
                if handles[i].open then child.handles[i] == handles[i] else !child.handles[i].open
      ensures Names(child.handles) == Names(handles)
      ensures Safe(others + Names(handles)) && child.Safe(others + Names(handles))
      ensures Counts(manager.fds) == Counts(old(manager.fds)) + Names(handles)
    {
      hide Refs, Counts, Names, Unique;
      child := new Process(manager);
      ghost var parent := Names(handles) + others;
      NoNames([]);
      NoNames(handles[..0]);
      assert forall n: multiset<FileDescription> :: multiset{} + n == n;
      for i := 0 to |handles|
        invariant child.manager == manager && fresh(child) && |child.handles| == i && manager.Valid()
        invariant forall j | 0 <= j < i ::
                    if handles[j].open then child.handles[j] == handles[j] else !child.handles[j].open
        invariant Names(child.handles) == Names(handles[..i])
        invariant Covered(manager.fds, Names(child.handles) + parent)
        invariant Counts(manager.fds) == Counts(old(manager.fds)) + Names(child.handles)
      {
        var h := if handles[i].open then handles[i] else Handle(false, null, 0, 0);
        NextCopied(child.handles, handles, i, h);
        if h.open {
          NoneDangles(manager, Names(child.handles) + parent, h.fd);
        }
        NamesAdded(child.handles, h);
        child.Adopt(h, parent);
      }
      assert handles[..|handles|] == handles;
      assert Names(child.handles) + parent == Names(handles) + (others + Names(handles));
    }

    method Serve(call: Call, ghost others: multiset<FileDescription>) returns (file: FileDescription?)
      requires Safe(others) && !call.Fork?
      modifies this, manager
      ensures Safe(others) <==> !HalfPipe(call, old(handles))
      ensures Served(call, old(handles), handles, file)
      ensures Counted(call, old(handles), Counts(old(manager.fds)), Counts(manager.fds), file,
                      call.Open? && FileOf(old(manager.fds), call.inodeNum, call.fs) != null)
      ensures call.Open? && !Full(old(handles)) ==>
                && file == FileOf(manager.fds, call.inodeNum, call.fs)
                && (FileOf(old(manager.fds), call.inodeNum, call.fs) != null ==> file == FileOf(old(manager.fds), call.inodeNum, call.fs))
    {
      hide Names, Unique, Refs, Counts, FileOf, FirstFree, Taken, Duplicated, Shut, ShutAll, Named;
      file := null;
      SlotsTaken(handles);
      NothingLess(Counts(manager.fds));
      match call
      case Open(inodeNum, fs, perms) =>
        var r := SysOpen(inodeNum, fs, perms, others);
        if r.Ok? {
          file := handles[r.number].fd;
        }
      case Close(n) =>
        if IsHandleOpen(n) {
          NamedIs(handles[n]);
          var err := CloseHandle(n, others);
        }
      case Dup(src, dst) =>
        var r := DuplicateHandle(src, dst, others);
      case Pipe =>
        var rd, wr;
        rd, wr, file := SysPipe(others);
      case Exit =>
        CloseAll(others);
    }

    // A reference that no handle stands for is given back.
    method GiveBack(fd: FileDescription, ghost names: multiset<FileDescription>)
      requires manager.Valid() && Covered(manager.fds, names)
      requires names[fd] == 0 || names[fd] < Refs(manager.fds, fd)
      modifies manager
      ensures manager.Valid() && Covered(manager.fds, names)
      ensures Counts(manager.fds) + (if Refs(old(manager.fds), fd) > 0 then multiset{fd} else multiset{}) == Counts(old(manager.fds))
    {
      hide Refs, Unique;
      ghost var fds := manager.fds;
      var _ := manager.Close(fd);
      CountsMoved(fds, manager.fds, if Refs(fds, fd) > 0 then multiset{fd} else multiset{}, multiset{});
      OneLess(fds, manager.fds, names, fd);
    }
  }

  lemma {:induction false} NoNames(handles: seq<Handle>)
    requires forall i | 0 <= i < |handles| :: !handles[i].open
    ensures Names(handles) == multiset{}
  {
    if handles != [] {
      NoNames(handles[..|handles| - 1]);
    }
  }

  // As many names as open handles.
  lemma {:induction false} NameCount(handles: seq<Handle>)
    requires forall i | 0 <= i < |handles| && handles[i].open :: handles[i].fd != null
    ensures |Names(handles)| <= |handles|
    ensures |Names(handles)| == |handles| <==> forall i | 0 <= i < |handles| :: handles[i].open
    ensures OpenCount(handles) == |Names(handles)|
  {
    if handles != [] {
      var front, last := handles[..|handles| - 1], handles[|handles| - 1];
      assert handles == front + [last];
      assert |Names(handles)| == |Names(front)| + |Named(last)|;
      NameCount(front);
    }
  }

  lemma OneLess(fds: seq<OpenFile>, fds': seq<OpenFile>, names: multiset<FileDescription>, fd: FileDescription)
    requires Covered(fds, names) && (names[fd] == 0 || names[fd] < Refs(fds, fd))
    requires forall x :: Refs(fds', x) == if x == fd && Refs(fds, x) > 0 then Refs(fds, x) - 1 else Refs(fds, x)
    ensures Covered(fds', names)
  {
    hide Refs;
  }

  lemma MoreRefs(fds: seq<OpenFile>, fds': seq<OpenFile>, names: multiset<FileDescription>)
    requires Covered(fds, names) && forall x :: Refs(fds', x) >= Refs(fds, x)
    ensures Covered(fds', names)
  {
    hide Refs;
  }

  // All names of some processes.
  ghost function AllNames(ps: seq<Process>): multiset<FileDescription>
    reads set p | p in ps
  {
    if ps == [] then multiset{} else AllNames(ps[..|ps| - 1]) + Names(ps[|ps| - 1].handles)
  }

  // ... but one.
  ghost function OtherNames(ps: seq<Process>, k: nat): multiset<FileDescription>
    requires k < |ps|
    reads set p | p in ps
  {
    AllNames(ps[..k] + ps[k + 1..])
  }

  lemma AllNamesAdded(ps: seq<Process>, p: Process)
    ensures AllNames(ps + [p]) == AllNames(ps) + Names(p.handles)
  {
    assert (ps + [p])[..|ps|] == ps;
  }

  lemma {:induction false} OneAndOthers(ps: seq<Process>, k: nat)
    requires k < |ps|
    ensures AllNames(ps) == Names(ps[k].handles) + OtherNames(ps, k)
  {
    hide AllNames, Names;
    var front, last := ps[..|ps| - 1], ps[|ps| - 1];
    assert ps == front + [last];
    AllNamesAdded(front, last);
    if k < |front| {
      OneAndOthers(front, k);
      var rest := front[..k] + front[k + 1..];
      assert ps[..k] + ps[k + 1..] == rest + [last];
      AllNamesAdded(rest, last);
    } else {
      assert ps[..k] + ps[k + 1..] == front;
    }
  }

  /** All processes of the system. */
  class ProcessManager {
    const manager: FileDescriptionManager
    var processes: seq<Process>

    constructor ()
      ensures Valid() && processes == []
    {
      manager := new FileDescriptionManager();
      processes := [];
    }

    ghost predicate Valid()
      reads this, manager, set p | p in processes
    {
      && (forall i, j | 0 <= i < j < |processes| :: processes[i] != processes[j])
      && (forall p | p in processes :: p.manager == manager && p.Proper())
      && manager.Valid() && Covered(manager.fds, AllNames(processes))
    }

    /** What any process has open is in the table and was not deleted. */
    lemma NothingDangles(k: nat, n: nat)
      requires Valid() && k < |processes| && processes[k].IsHandleOpen(n)
      ensures processes[k].handles[n].fd != null && InTable(manager.fds, processes[k].handles[n].fd)
      ensures processes[k].handles[n].fd !in manager.released
    {
      hide Names, Unique;
      OneAndOthers(processes, k);
      processes[k].NamesThere(n, OtherNames(processes, k));
    }

    // A process without open handles.
    method Start()
      requires Valid()
      modifies this`processes
      ensures Valid() && |processes| == |old(processes)| + 1
    {
      hide Refs, Counts, Names, Unique, AllNames;
      var p := new Process(manager);
      AllNamesAdded(processes, p);
      NoNames([]);
      assert AllNames(processes) + multiset{} == AllNames(processes);
      processes := processes + [p];
    }

    /**
     Any process makes a call: the handles of all processes stay safe, if and only if it does not ask for a pipe
     when one handle is free.
     */
    method Step(k: nat, call: Call) returns (file: FileDescription?)
      requires Valid() && k < |processes|
      modifies this`processes, manager, processes[k]
      ensures Valid() <==> !HalfPipe(call, old(processes[k].handles))
      ensures if call.Fork? then |processes| == |old(processes)| + 1 && processes[..|old(processes)|] == old(processes)
                                 && fresh(processes[|old(processes)|])
              else processes == old(processes)
      // What the call does to the handles of its process, and to all references.
      ensures Served(call, old(processes[k].handles), processes[k].handles, file)
      ensures Counted(call, old(processes[k].handles), Counts(old(manager.fds)), Counts(manager.fds), file,
                      call.Open? && FileOf(old(manager.fds), call.inodeNum, call.fs) != null)
      ensures call.Open? && !Full(old(processes[k].handles)) ==>
                && file == FileOf(manager.fds, call.inodeNum, call.fs)
                && (FileOf(old(manager.fds), call.inodeNum, call.fs) != null ==> file == FileOf(old(manager.fds), call.inodeNum, call.fs))
      ensures call.Fork? ==> Copied(old(processes[k].handles), processes[|old(processes)|].handles)
    {
      hide Refs, Counts, Names, Unique, AllNames, OpenCount;
      if call.Fork? {
        Fork(k);
        return null;
      }
      ghost var others := OtherNames(processes, k);
      OneAndOthers(processes, k);
      file := processes[k].Serve(call, others);
      assert OtherNames(processes, k) == others;
      OneAndOthers(processes, k);
    }

    /** Any sequence of calls of any processes but such pipes keeps all handles safe. */
    method Run(calls: seq<(nat, Call)>)
      requires Valid()
      modifies this`processes, manager, set p | p in processes
      ensures Valid()
    {
      hide Refs, Counts, Names, Unique, AllNames, OpenCount;
      for i := 0 to |calls|
        invariant Valid() && forall p | p in processes :: p in old(processes) || fresh(p)
      {
        var (k, call) := calls[i];
        if k < |processes| && !HalfPipe(call, processes[k].handles) {
          var _ := Step(k, call);
        }
      }
    }

    method Fork(k: nat)
      requires Valid() && k < |processes|
      modifies this`processes, manager
      ensures Valid() && |processes| == |old(processes)| + 1 && |old(processes)| > 0
      ensures processes[..|old(processes)|] == old(processes) && fresh(processes[|old(processes)|])
      ensures processes[k].handles == old(processes[k].handles) && Copied(processes[k].handles, processes[|old(processes)|].handles)
      ensures Counts(manager.fds) == Counts(old(manager.fds)) + Names(processes[k].handles)
    {
      hide Refs, Counts, Names, Unique, AllNames;
      ghost var others := OtherNames(processes, k);
      var p := processes[k];
      OneAndOthers(processes, k);
      var child := p.Fork(others);
      OneAndOthers(processes, k);
      AllNamesAdded(processes, child);
      assert AllNames(processes + [child]) == Names(p.handles) + (others + Names(p.handles));
      processes := processes + [child];
    }
  }
}
