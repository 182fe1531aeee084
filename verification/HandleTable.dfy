/**
 The process-wide handle table (common_handle.cpp) and CloseHandle. Every operation of the
 table runs under the map lock, so a sequence of them is a sequence of these methods.
 CloseHandle takes the lock for each of its accesses separately; here it is undisturbed.
 */
module HandleTable {
  import opened Wrappers

  const INT_MAX: int := 0x7FFF_FFFF
  /** sizeof of the path, findPattern, fullPath and name arrays */
  const FIELD_SIZE: nat := 255

  /** A fixed char array of a handle record. */
  type Field = f: seq<char> | |f| == 255 witness seq(255, _ => '\0')

  datatype Kind = DUMMY_START | FILE | MODULE | THREAD | MUTEX | EVENT | INVALID

  datatype Context =
    | FileInfo(fd: int, path: Field, findPattern: Field)
    | ModuleInfo(nativeHandle: int, fullPath: Field)
    | ThreadInfo(tid: int)
    | MutexInfo(mutex: int, attr: int, name: Field)
    | EventInfo(hEvent: int, manualReset: bool, signaled: bool)

  datatype Header = Header(selfKey: int, kind: Kind, ctx: Context)

  predicate KindFits(kind: Kind, ctx: Context) {
    match ctx
    case FileInfo(_, _, _) => kind.FILE?
    case ModuleInfo(_, _) => kind.MODULE?
    case ThreadInfo(_) => kind.THREAD?
    case MutexInfo(_, _, _) => kind.MUTEX?
    case EventInfo(_, _, _) => kind.EVENT?
  }

  // ------------------------------------------------ text in a record

  predicate CText(s: string) {
    '\0' !in s
  }

  /** strncpy(field, s, sizeof(field)): cut without a terminator, or padded with NULs. */
  function ToField(s: string): Field {
    if |s| >= FIELD_SIZE then s[..FIELD_SIZE] else s + seq(FIELD_SIZE - |s|, _ => '\0')
  }

  /** std::string(field); None when no NUL lies inside the field and the read would run on. */
  function FromField(f: seq<char>): Option<string> {
    if f == [] then None
    else if f[0] == '\0' then Some("")
    else
      var rest := FromField(f[1..]);
      if rest.None? then None else Some([f[0]] + rest.value)
  }

  lemma {:induction false} ReadsToTerminator(s: string, pad: seq<char>)
    requires CText(s)
    ensures FromField(s + pad) == if pad != [] && pad[0] == '\0' then Some(s)
                                  else if FromField(pad).None? then None else Some(s + FromField(pad).value)
  {
    if s == "" {
      assert s + pad == pad;
      if FromField(pad).Some? {
        assert s + FromField(pad).value == FromField(pad).value;
      }
    } else {
      assert (s + pad)[1..] == s[1..] + pad;
      ReadsToTerminator(s[1..], pad);
      assert s == [s[0]] + s[1..];
      if FromField(pad).Some? {
        assert [s[0]] + (s[1..] + FromField(pad).value) == s + FromField(pad).value;
      }
    }
  }

  /** A stored text reads back exactly when it is shorter than the field; the code does not check that. */
  lemma FieldReadsBack(s: string)
    requires CText(s)
    ensures FromField(ToField(s)) == (if |s| < FIELD_SIZE then Some(s) else None)
  {
    if |s| < FIELD_SIZE {
      ReadsToTerminator(s, seq(FIELD_SIZE - |s|, _ => '\0'));
    } else {
      ReadsToTerminator(s[..FIELD_SIZE], []);
      assert s[..FIELD_SIZE] + [] == s[..FIELD_SIZE];
    }
  }

  // ------------------------------------------------ probing for a key

  /** Pigeonhole: a run of live keys is no longer than the table. */
  lemma {:induction false} LiveRunBounded(keys: set<int>, a: int, b: int)
    requires a <= b && forall k | a <= k < b :: k in keys
    ensures b - a <= |keys|
    decreases b - a
  {
    if a < b {
      LiveRunBounded(keys - {b - 1}, a, b - 1);
    }
  }

  /** A key below INT_MAX is free as long as the table is smaller than the room above the starting point. */
  lemma RoomToProbe(keys: set<int>, start: int)
    requires start + |keys| <= INT_MAX
    ensures exists k: int :: start <= k <= INT_MAX && k !in keys
  {
    if forall k: int | start <= k <= INT_MAX :: k in keys {
      LiveRunBounded(keys, start, INT_MAX + 1);
    }
  }

  // ------------------------------------------------ the log a table is accountable to

  /** What happened to the table, in order. */
  datatype Event = Registered(key: int, header: Header) | Updated(key: int, fd: int, path: Field) | Closed(key: int)

  function WithFile(h: Header, fd: int, path: Field): Header
    requires h.ctx.FileInfo?
  {
    h.(ctx := h.ctx.(fd := fd, path := path))
  }

  /**
   The record a handle must show after a log: what its last registration stored, with the
   updates since, and nothing once it is closed. Events of other handles do not matter.
   */
  function Account(log: seq<Event>, h: int): Option<Header> {
    if log == [] then None else After(Account(log[..|log| - 1], h), log[|log| - 1], h)
  }

  function After(before: Option<Header>, e: Event, h: int): Option<Header> {
    if e.key != h then before
    else match e
      case Registered(_, header) => Some(header)
      case Updated(_, fd, path) =>
        if before.Some? && before.value.ctx.FileInfo? then Some(WithFile(before.value, fd, path)) else before
      case Closed(_) => None
  }

  lemma AccountGrows(log: seq<Event>, e: Event)
    ensures forall h :: Account(log + [e], h) == After(Account(log, h), e, h)
  {
    assert (log + [e])[..|log|] == log;
  }

  /** A handle keeps its record through everything that happens to others. */
  lemma {:induction false} OthersDoNotMatter(log: seq<Event>, more: seq<Event>, h: int)
    requires forall e | e in more :: e.key != h
    ensures Account(log + more, h) == Account(log, h)
  {
    if more == [] {
      assert log + more == log;
    } else {
      var init, e := more[..|more| - 1], more[|more| - 1];
      OthersDoNotMatter(log, init, h);
      AccountGrows(log + init, e);
      assert log + more == (log + init) + [e];
    }
  }

  /** A live handle reads back what was last stored for it, whatever happens to others since. */
  lemma ReadsBackLastStore(log: seq<Event>, e: Event, more: seq<Event>)
    requires forall x | x in more :: x.key != e.key
    ensures e.Registered? ==> Account(log + [e] + more, e.key) == Some(e.header)
    ensures e.Updated? && Account(log, e.key).Some? && Account(log, e.key).value.ctx.FileInfo? ==>
              Account(log + [e] + more, e.key) == Some(WithFile(Account(log, e.key).value, e.fd, e.path))
  {
    AccountGrows(log, e);
    OthersDoNotMatter(log + [e], more, e.key);
  }

  /** A closed handle has no record until its key is handed out again; late updates and closes do not revive it. */
  lemma {:induction false} ClosedUntilReissued(log: seq<Event>, more: seq<Event>, h: int)
    requires forall x | x in more :: x.Registered? ==> x.key != h
    ensures Account(log + [Closed(h)] + more, h) == None
  {
    if more == [] {
      AccountGrows(log, Closed(h));
      assert log + [Closed(h)] + more == log + [Closed(h)];
    } else {
      var init, e := more[..|more| - 1], more[|more| - 1];
      ClosedUntilReissued(log, init, h);
      AccountGrows(log + [Closed(h)] + init, e);
      assert log + [Closed(h)] + more == (log + [Closed(h)] + init) + [e];
    }
  }

  class Table {
    var entries: map<int, Header>
    ghost var log: seq<Event>

    /** The table shows exactly what the log accounts for. */
    ghost predicate Valid()
      reads this
    {
      (forall h :: h in entries <==> Account(log, h).Some?) &&
      (forall h | h in entries :: entries[h] == Account(log, h).value) &&
      (forall h | h in entries :: entries[h].selfKey == h && KindFits(entries[h].kind, entries[h].ctx))
    }

    constructor ()
      ensures Valid() && entries == map[] && log == []
    {
      entries, log := map[], [];
    }

    /**
     The probing of __compat_handle_new_key_get from the value of rand(). The increment must
     stay in int range, so some key from there on has to be free.
     */
    method NewKey(rand: int) returns (key: int)
      requires exists k :: rand <= k <= INT_MAX && k !in entries
      ensures rand <= key <= INT_MAX && key !in entries
      ensures forall k | rand <= k < key :: k in entries
      ensures key - rand <= |entries|
    {
      ghost var free :| rand <= free <= INT_MAX && free !in entries;
      key := rand;
      while key in entries
        invariant rand <= key <= free
        invariant forall k | rand <= k < key :: k in entries
        decreases free - key
      {
        key := key + 1;
      }
      LiveRunBounded(entries.Keys, rand, key);
    }

    /** The reg_ functions: a fresh key, then every field of its record. */
    method Register(rand: int, kind: Kind, ctx: Context) returns (handle: int)
      requires Valid() && KindFits(kind, ctx)
      requires exists k :: rand <= k <= INT_MAX && k !in entries
      modifies this
      ensures Valid()
      ensures handle !in old(entries) && rand <= handle <= INT_MAX
      ensures entries == old(entries)[handle := Header(handle, kind, ctx)]
      ensures log == old(log) + [Registered(handle, Header(handle, kind, ctx))]
    {
      handle := NewKey(rand);
      var header := Header(handle, kind, ctx);
      AccountGrows(log, Registered(handle, header));
      entries := entries[handle := header];
      log := log + [Registered(handle, header)];
    }

    /** __compat_handle_reg_fd */
    method RegFd(rand: int, fd: int, path: string, findPattern: string) returns (handle: int)
      requires Valid()
      requires exists k :: rand <= k <= INT_MAX && k !in entries
      modifies this
      ensures Valid()
      ensures handle !in old(entries) && rand <= handle <= INT_MAX
      ensures entries == old(entries)[handle := Header(handle, FILE, FileInfo(fd, ToField(path), ToField(findPattern)))]
      ensures log == old(log) + [Registered(handle, entries[handle])]
    {
      handle := Register(rand, FILE, FileInfo(fd, ToField(path), ToField(findPattern)));
    }

    /** __compat_handle_update_fd: rewrites descriptor and path of a live record. */
    method UpdateFd(handle: int, fd: int, path: string)
      requires Valid()
      requires handle in entries ==> entries[handle].kind.FILE?
      modifies this
      ensures Valid()
      ensures entries == if handle in old(entries)
                         then old(entries)[handle := WithFile(old(entries)[handle], fd, ToField(path))]
                         else old(entries)
      ensures log == if handle in old(entries) then old(log) + [Updated(handle, fd, ToField(path))] else old(log)
    {
      if handle in entries {
        AccountGrows(log, Updated(handle, fd, ToField(path)));
        entries := entries[handle := WithFile(entries[handle], fd, ToField(path))];
        log := log + [Updated(handle, fd, ToField(path))];
      }
    }

    /** __compat_handle_erase */
    method Erase(handle: int)
      requires Valid()
      modifies this
      ensures Valid() && handle !in entries
      ensures entries == old(entries) - {handle}
      ensures log == if handle in old(entries) then old(log) + [Closed(handle)] else old(log)
    {
      if handle in entries {
        AccountGrows(log, Closed(handle));
        entries := entries - {handle};
        log := log + [Closed(handle)];
      }
    }

    /** __compat_handle_type_get */
    function TypeGet(handle: int): (kind: Kind)
      reads this
    {
      if handle in entries then entries[handle].kind else INVALID
    }

    /** Exactly the live handles have a type other than INVALID, and it is that of their object. */
    lemma TypeOfLive(handle: int)
      requires Valid()
      ensures TypeGet(handle) != INVALID <==> handle in entries
      ensures handle in entries ==> KindFits(TypeGet(handle), entries[handle].ctx)
    {
    }

    /** What the getters tell of a find handle right behind its registration, and of one that is closed. */
    lemma GettersTellTheRecord(handle: int, fd: int, path: string, findPattern: string)
      requires CText(path) && CText(findPattern) && |path| < FIELD_SIZE && |findPattern| < FIELD_SIZE
      requires handle in entries ==> entries[handle].ctx == FileInfo(fd, ToField(path), ToField(findPattern))
      ensures handle in entries ==>
                GetFd(handle) == fd && GetFdPath(handle) == Some(path) && GetFdFindPattern(handle) == Some(findPattern)
      ensures handle !in entries ==>
                GetFd(handle) == -1 && GetFdPath(handle) == Some("") && GetFdFindPattern(handle) == Some("")
    {
      FieldReadsBack(path);
      FieldReadsBack(findPattern);
    }

    /** __compat_handle_get_fd, for a handle of a file or of no record */
    function GetFd(handle: int): int
      requires handle in entries ==> entries[handle].ctx.FileInfo?
      reads this
    {
      if handle in entries then entries[handle].ctx.fd else -1
    }

    /** __compat_handle_get_fd_path, for a handle of a file or of no record */
    function GetFdPath(handle: int): Option<string>
      requires handle in entries ==> entries[handle].ctx.FileInfo?
      reads this
    {
      if handle in entries then FromField(entries[handle].ctx.path) else Some("")
    }

    /** __compat_handle_get_fd_findPattern */
    function GetFdFindPattern(handle: int): Option<string>
      requires handle in entries ==> entries[handle].ctx.FileInfo?
      reads this
    {
      if handle in entries then FromField(entries[handle].ctx.findPattern) else Some("")
    }

    /**
     CloseHandle without another thread in between: which object is released depends on the
     type; the record goes away in every case.
     */
    method CloseHandle(handle: int) returns (ret: bool)
      requires Valid()
      modifies this
      ensures Valid() && TypeGet(handle) == INVALID
      ensures entries == old(entries) - {handle}
      ensures ret <==> handle in old(entries) &&
                       match old(entries)[handle].ctx
                       case FileInfo(fd, _, _) => fd != -1
                       case ModuleInfo(native, _) => native != 0
                       case ThreadInfo(tid) => tid != 0
                       case MutexInfo(_, _, _) => true
                       case EventInfo(hEvent, _, _) => hEvent != 0
    {
      var kind := TypeGet(handle);
      ret := false;
      if kind.INVALID? {
        return;
      }
      var ctx := entries[handle].ctx;
      match kind
      case FILE =>
        ret := ctx.fd != -1;
        Erase(handle);
      case MODULE =>
        ret := ctx.nativeHandle != 0;
        Erase(handle);
      case THREAD =>
        ret := ctx.tid != 0;
        Erase(handle);
      case MUTEX =>
        ret := true;
        Erase(handle);
      case EVENT =>
        ret := ctx.hEvent != 0;
        Erase(handle);
      case _ =>
    }
  }
}
