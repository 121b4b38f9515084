/** logcollector.c: a log file that several threads write and replace.  The functions that create
    and replace it run under its lock, so each is one step; the drains read `fptr` without the
    lock.  Files are numbered in the order they are opened, and fopen succeeds. */
module Rotation {
  import opened Bytes
  import Bits

  type File = nat

  const FILE_SIZE_SPAN: nat := 0x1_0000_0000_0000_0000

  /** struct json_file_handle_t or temp_file_handle_t, and the history: how many files have been
      opened, and the calls of fclose in their order. */
  datatype Handle = Handle(fptr: Option<File>, prev: Option<File>, ref: int, prevRef: int, fileSize: nat,
                           files: nat, closed: seq<File>)

  function NoFile(): Handle { Handle(None, None, 0, 0, 0, 0, []) }

  /** 0, 1, ..., n - 1. */
  function Numbers(n: nat): (s: seq<nat>)
    ensures |s| == n && forall i :: 0 <= i < n ==> s[i] == i
  {
    seq(n, i => i)
  }

  /** What the lock protects, with `n` threads registered: every file that has been replaced, and
      is not the previous one any more, has been closed once, in order; the other one or two are
      open. */
  ghost predicate Valid(h: Handle, n: nat) {
    && h.ref + h.prevRef == n
    && 0 <= h.prevRef
    && (h.prev == None <==> h.prevRef == 0)
    && (n == 0 ==> h.fptr == None && h.files == 0)
    && (n > 0 ==> h.ref > 0 && h.files > 0 && h.fptr == Some(h.files - 1))
    && (h.prev.Some? ==> h.files > 1 && h.prev == Some(h.files - 2))
    && h.closed == Numbers(h.files - (if h.fptr.Some? then 1 else 0) - (if h.prev.Some? then 1 else 0))
  }

  /** A thread that has finished with the previous file; who is the last of them closes it. */
  function Leave(h: Handle): Handle {
    if h.prevRef == 0 && h.prev.Some? then h.(prev := None, closed := h.closed + [h.prev.value]) else h
  }

  /** One call of set_temp_file_ptr or set_json_file_ptr. */
  function Replaced(h: Handle): Handle {
    Leave(if h.prevRef == 0
          then Handle(Some(h.files), h.fptr, 1, h.ref - 1, 0, h.files + 1, h.closed)
          else h.(ref := h.ref + 1, prevRef := h.prevRef - 1))
  }

  function Registered(h: Handle): Handle {
    if h.fptr == None then Handle(Some(h.files), h.prev, 1, 0, h.fileSize, h.files + 1, h.closed)
    else h.(ref := h.ref + 1)
  }

  /** __sync_add_and_fetch of what a drain has written, in 64 bits. */
  function Added(h: Handle, size: nat): Handle {
    h.(fileSize := (h.fileSize + size) % FILE_SIZE_SPAN)
  }

  /** fopen and fclose, for the files of one handle. */
  class Disk {
    var files: nat
    var closed: seq<File>

    constructor ()
      ensures files == 0 && closed == []
    {
      files, closed := 0, [];
    }

    method Open() returns (f: File)
      modifies this`files
      ensures f == old(files) && files == f + 1
    {
      f := files;
      files := files + 1;
    }

    /** Closing a file that was never opened, or twice, is not allowed. */
    method Close(f: File)
      requires f < files && f !in closed
      modifies this`closed
      ensures closed == old(closed) + [f]
    {
      closed := closed + [f];
    }
  }

  class FileHandle {
    var fptr: Option<File>
    var prevFptr: Option<File>
    var fileSize: nat
    var ref: int
    var prevRef: int
    const disk: Disk
    ghost var threads: nat

    ghost function State(): Handle
      reads this, disk
    {
      Handle(fptr, prevFptr, ref, prevRef, fileSize, disk.files, disk.closed)
    }

    ghost predicate Consistent()
      reads this, disk
    {
      Valid(State(), threads)
    }

    /** initialize_json_file_handles and initialize_temp_file_handles: calloc. */
    constructor (disk: Disk)
      requires disk.files == 0 && disk.closed == []
      ensures this.disk == disk && State() == NoFile() && threads == 0 && Consistent()
    {
      this.disk := disk;
      fptr, prevFptr, fileSize, ref, prevRef := None, None, 0, 0, 0;
      threads := 0;
    }

    /** create_json_log_file and create_temp_log_file: one more thread writes this file. */
    method Create()
      requires Consistent()
      modifies this, disk
      ensures threads == old(threads) + 1 && Consistent()
      ensures State() == Registered(old(State()))
    {
      if fptr == None {
        var f := disk.Open();
        fptr := Some(f);
        ref := 1;
        prevRef := 0;
      } else {
        ref := ref + 1;
      }
      threads := threads + 1;
    }

    /** set_json_file_ptr and set_temp_file_ptr, called by one of the registered threads: every
        fclose it makes is of a file that is open. */
    method Set()
      requires Consistent() && threads > 0
      modifies this, disk
      ensures threads == old(threads) && Consistent()
      ensures State() == Replaced(old(State()))
    {
      if prevFptr == None && prevRef == 0 {
        prevFptr := fptr;
        var f := disk.Open();
        fptr := Some(f);
        fileSize := Bits.And(fileSize, 0);
        Bits.AndZero(old(fileSize));
        prevRef := ref - 1;
        ref := 1;
      } else {
        ref := ref + 1;
        prevRef := prevRef - 1;
      }
      if prevRef == 0 {
        disk.Close(prevFptr.value);
        prevFptr := None;
      }
    }

    /** After drain_write_buffer_json and drain_write_buffer. */
    method AddSize(size: nat)
      requires Consistent()
      modifies this`fileSize
      ensures threads == old(threads) && Consistent()
      ensures State() == Added(old(State()), size)
    {
      fileSize := (fileSize + size) % FILE_SIZE_SPAN;
    }
  }

  // ----- rotations

  lemma ReplacedValid(h: Handle, n: nat)
    requires Valid(h, n) && n > 0
    ensures Valid(Replaced(h), n)
  {
  }

  lemma RegisteredValid(h: Handle, n: nat)
    requires Valid(h, n)
    ensures Valid(Registered(h), n + 1)
  {
  }

  /** Any interleaving of registrations, replacements and drains keeps the books; a thread replaces
      and drains only after one has registered. */
  datatype Call = Register | Replace | Drain(size: nat)

  function Called(h: Handle, c: Call): Handle {
    match c
    case Register => Registered(h)
    case Replace => Replaced(h)
    case Drain(size) => Added(h, size)
  }

  function Calls(h: Handle, calls: seq<Call>): Handle
    decreases |calls|
  {
    if calls == [] then h else Calls(Called(h, calls[0]), calls[1..])
  }

  function Registrations(calls: seq<Call>): nat {
    if calls == [] then 0 else (if calls[0] == Register then 1 else 0) + Registrations(calls[1..])
  }

  /** At most two files are open at any time, and every replaced file is closed exactly once. */
  lemma {:induction false} BooksKept(h: Handle, n: nat, calls: seq<Call>)
    requires Valid(h, n) && (n > 0 || calls == [] || calls[0] == Register)
    ensures Valid(Calls(h, calls), n + Registrations(calls))
    ensures Calls(h, calls).files - |Calls(h, calls).closed| <= 2
    decreases |calls|
  {
    if calls != [] {
      if calls[0] == Register {
        RegisteredValid(h, n);
        BooksKept(Registered(h), n + 1, calls[1..]);
      } else {
        ReplacedValid(h, n);
        BooksKept(Called(h, calls[0]), n, calls[1..]);
      }
    }
  }

  // ----- the size of the file

  /** The call opens a file. */
  predicate Opens(h: Handle, c: Call) {
    Called(h, c).files > h.files
  }

  /** With `sum` bytes drained since the last file was opened, how many there are after the calls. */
  function DrainedSince(h: Handle, calls: seq<Call>, sum: nat): nat
    decreases |calls|
  {
    if calls == [] then sum
    else
      DrainedSince(Called(h, calls[0]), calls[1..],
                   if Opens(h, calls[0]) then 0 else if calls[0].Drain? then sum + calls[0].size else sum)
  }

  /** A call that opens a file leaves the size 0; every other call but a drain leaves it as it was.
      (The first file is opened where nothing has been drained.) */
  lemma SizeAfter(h: Handle, n: nat, c: Call)
    requires Valid(h, n) && (n > 0 || c == Register) && (n == 0 ==> h.fileSize == 0)
    ensures Opens(h, c) <==> (c == Register && n == 0) || (c == Replace && h.prevRef == 0)
    ensures Opens(h, c) ==> Called(h, c).fileSize == 0
    ensures !Opens(h, c) && !c.Drain? ==> Called(h, c).fileSize == h.fileSize
  {
  }

  /** Over any run the size is that of the drains since the last file was opened, in 64 bits. */
  lemma {:induction false} SizeIsDrained(h: Handle, n: nat, calls: seq<Call>, sum: nat)
    requires Valid(h, n) && (n > 0 || calls == [] || calls[0] == Register)
    requires h.fileSize == sum % FILE_SIZE_SPAN && (n == 0 ==> sum == 0)
    ensures Calls(h, calls).fileSize == DrainedSince(h, calls, sum) % FILE_SIZE_SPAN
    decreases |calls|
  {
    if calls != [] {
      var c := calls[0];
      SizeAfter(h, n, c);
      if c == Register {
        RegisteredValid(h, n);
        SizeIsDrained(Registered(h), n + 1, calls[1..], if Opens(h, c) then 0 else sum);
      } else if c == Replace {
        ReplacedValid(h, n);
        SizeIsDrained(Replaced(h), n, calls[1..], if Opens(h, c) then 0 else sum);
      } else {
        SumWraps(sum, c.size);
        SizeIsDrained(Added(h, c.size), n, calls[1..], sum + c.size);
      }
    }
  }

  /** Once a file has been opened, the size test of the workers (file_size > limit) holds again only
      after more than the limit has been drained. */
  lemma SizeTest(h: Handle, n: nat, calls: seq<Call>, limit: nat)
    requires Valid(h, n) && n > 0 && h.fileSize == 0 && Calls(h, calls).fileSize > limit
    ensures DrainedSince(h, calls, 0) > limit
  {
    SizeIsDrained(h, n, calls, 0);
  }

  lemma SumWraps(a: nat, b: nat)
    ensures (a % FILE_SIZE_SPAN + b) % FILE_SIZE_SPAN == (a + b) % FILE_SIZE_SPAN
  {
    var q := a / FILE_SIZE_SPAN;
    var r := a % FILE_SIZE_SPAN + b;
    assert a + b == q * FILE_SIZE_SPAN + r;
    Bits.DivModUnique(a + b, FILE_SIZE_SPAN, q + r / FILE_SIZE_SPAN, r % FILE_SIZE_SPAN);
  }

  /** `k` calls of the set function. */
  function Sets(h: Handle, k: nat): Handle {
    if k == 0 then h else Replaced(Sets(h, k - 1))
  }

  /** With n threads and no rotation under way, k calls open ceil(k / n) new files and close
      floor(k / n) of the old ones; then k mod n threads have left the previous file. */
  lemma {:induction false} Rotations(h: Handle, n: nat, k: nat)
    requires Valid(h, n) && n > 0 && h.prevRef == 0
    ensures Valid(Sets(h, k), n)
    ensures Sets(h, k).files == h.files + (k + n - 1) / n
    ensures |Sets(h, k).closed| == |h.closed| + k / n
    ensures Sets(h, k).prevRef == if k % n == 0 then 0 else n - k % n
  {
    if k == 0 {
      Bits.DivModUnique(0, n, 0, 0);
      Bits.DivModUnique(n - 1, n, 0, n - 1);
    } else {
      Rotations(h, n, k - 1);
      ReplacedValid(Sets(h, k - 1), n);
      NextRound(k - 1, n);
    }
  }

  lemma NextRound(k: nat, n: nat)
    requires n > 0
    ensures k % n + 1 < n ==> (k + 1) / n == k / n && (k + 1) % n == k % n + 1
    ensures k % n + 1 == n ==> (k + 1) / n == k / n + 1 && (k + 1) % n == 0
    ensures (k + n - 1) / n == k / n + (if k % n == 0 then 0 else 1)
    ensures (k + n) / n == k / n + 1
  {
    var q, r := k / n, k % n;
    assert k == q * n + r;
    assert (q + 1) * n == q * n + n;
    Bits.DivModUnique(k + n, n, q + 1, r);
    if r == 0 {
      Bits.DivModUnique(k + n - 1, n, q, n - 1);
    } else {
      Bits.DivModUnique(k + n - 1, n, q + 1, r - 1);
    }
    if r + 1 < n {
      Bits.DivModUnique(k + 1, n, q, r + 1);
    } else {
      Bits.DivModUnique(k + 1, n, q + 1, 0);
    }
  }
}
