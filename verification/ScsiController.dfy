/** The target's phase machine. `Process` is called in a loop; each call is one step. */
module ScsiControllers {
  import opened Bytes
  import opened Sectors
  import opened ScsiBus
  import opened Disks

  const BUFFER_SIZE: nat := 0x1000
  const GOOD: byte := 0x00
  const CHECK_CONDITION: byte := 0x02

  const REQUEST_SENSE: byte := 0x03
  const INQUIRY: byte := 0x12
  const READ: set<byte> := {0x08, 0x28, 0x88}
  const WRITE: set<byte> := {0x0A, 0x2A, 0x8A}
  const MODE_SELECT: set<byte> := {0x15, 0x55}

  function ModeOf(opcode: byte): AccessMode {
    if opcode in {0x28, 0x2A} then RW10 else if opcode in {0x88, 0x8A} then RW16 else RW6
  }

  /** The range that a READ or WRITE asks for, in the bytes of its CDB, the most significant first: 21 bits of start and
      one byte of count, of which 0 means 256, or four bytes of start and two of count, or eight of start and four of
      count. */
  predicate Asks(cmd: seq<byte>, start: nat, count: nat)
    requires |cmd| == 16
  {
    if cmd[0] in {0x08, 0x0A} then
      && start == (cmd[1] % 0x20) as nat * 0x1_0000 + cmd[2] as nat * 0x100 + cmd[3]
      && count == if cmd[4] == 0 then 0x100 else cmd[4]
    else if cmd[0] in {0x28, 0x2A} then
      && start == cmd[2] as nat * 0x100_0000 + cmd[3] as nat * 0x1_0000 + cmd[4] as nat * 0x100 + cmd[5]
      && count == cmd[7] as nat * 0x100 + cmd[8]
    else
      && start == cmd[2] as nat * 0x100_0000_0000_0000 + cmd[3] as nat * 0x1_0000_0000_0000
                  + cmd[4] as nat * 0x100_0000_0000 + cmd[5] as nat * 0x1_0000_0000
                  + cmd[6] as nat * 0x100_0000 + cmd[7] as nat * 0x1_0000 + cmd[8] as nat * 0x100 + cmd[9]
      && count == cmd[10] as nat * 0x100_0000 + cmd[11] as nat * 0x1_0000 + cmd[12] as nat * 0x100 + cmd[13]
  }

  /** The fields as they are read are what the command asks for. */
  lemma FieldsAreAsked(cmd: seq<byte>)
    requires |cmd| == 16 && (cmd[0] in READ || cmd[0] in WRITE)
    ensures Asks(cmd, StartOf(cmd, ModeOf(cmd[0])), CountOf(cmd, ModeOf(cmd[0])))
  {
    match ModeOf(cmd[0]) {
      case RW6 =>
        ThreeBytes([cmd[1] % 0x20, cmd[2], cmd[3]]);
      case RW10 =>
        FourBytes(cmd[2..6]);
        TwoBytes(cmd[7..9]);
      case RW16 =>
        FourBytes(cmd[2..6]);
        FourMoreBytes(cmd[2..10]);
        assert cmd[2..10][..4] == cmd[2..6];
        FourBytes(cmd[10..14]);
    }
  }

  lemma TwoBytes(b: seq<byte>)
    requires |b| == 2
    ensures BigEndian(b) == b[0] as nat * 0x100 + b[1]
  {
    assert b[..1][..0] == [];
    assert BigEndian(b[..1]) == b[0];
  }

  lemma ThreeBytes(b: seq<byte>)
    requires |b| == 3
    ensures BigEndian(b) == b[0] as nat * 0x1_0000 + b[1] as nat * 0x100 + b[2]
  {
    TwoBytes(b[..2]);
  }

  lemma FourBytes(b: seq<byte>)
    requires |b| == 4
    ensures BigEndian(b) == b[0] as nat * 0x100_0000 + b[1] as nat * 0x1_0000 + b[2] as nat * 0x100 + b[3]
  {
    ThreeBytes(b[..3]);
  }

  lemma FourMoreBytes(b: seq<byte>)
    requires |b| == 8
    ensures BigEndian(b) == BigEndian(b[..4]) * 0x1_0000_0000
                            + b[4] as nat * 0x100_0000 + b[5] as nat * 0x1_0000 + b[6] as nat * 0x100 + b[7]
  {
    assert b[..7][..6] == b[..6] && b[..6][..5] == b[..5] && b[..5][..4] == b[..4];
    assert BigEndian(b[..5]) == BigEndian(b[..4]) * 0x100 + b[4];
    assert BigEndian(b[..6]) == BigEndian(b[..5]) * 0x100 + b[5];
    assert BigEndian(b[..7]) == BigEndian(b[..6]) * 0x100 + b[6];
  }

  lemma AskedOnce(cmd: seq<byte>, start: nat, count: nat)
    requires |cmd| == 16 && Asks(cmd, start, count)
    ensures forall s: nat, c: nat :: Asks(cmd, s, c) ==> s == start && c == count
  {
  }

  /** READ(10) of block 5. */
  lemma ReadOfBlockFive(cmd: seq<byte>)
    requires |cmd| == 16 && cmd[..10] == [0x28, 0, 0, 0, 0, 5, 0, 0, 1, 0]
    ensures Asks(cmd, 5, 1)
  {
    assert forall i :: 0 <= i < 10 ==> cmd[i] == cmd[..10][i];
  }

  /** The fields of a READ or WRITE lie within the bytes that its operation code promises: what else is in the buffer
      from earlier commands does not matter. */
  lemma FieldsAreReceived(a: seq<byte>, b: seq<byte>)
    requires |a| == |b| == 16 && (a[0] in READ || a[0] in WRITE)
    requires a[..CommandByteCount(a[0])] == b[..CommandByteCount(a[0])]
    ensures StartOf(a, ModeOf(a[0])) == StartOf(b, ModeOf(b[0])) && CountOf(a, ModeOf(a[0])) == CountOf(b, ModeOf(b[0]))
  {
    var n := CommandByteCount(a[0]);
    assert forall i :: 0 <= i < n ==> a[i] == a[..n][i] && b[i] == b[..n][i];
    hide BigEndian;
    match ModeOf(a[0]) {
      case RW6 =>
      case RW10 => assert a[2..6] == b[2..6] && a[7..9] == b[7..9];
      case RW16 => assert a[2..10] == b[2..10] && a[10..14] == b[10..14];
    }
  }

  // ---------- what a READ or WRITE command is to do ----------

  /** A READ or WRITE that has passed its checks: its sectors, and the disk and the bus as it found them. */
  datatype Job =
    | NoJob
    | ReadJob(start: nat, count: nat, store: seq<Sector>, sent: seq<byte>)
    | WriteJob(start: nat, count: nat, store: seq<Sector>, received: seq<byte>)

  /** The bytes of the sectors start..start+n-1, in order. */
  function Flat(store: seq<Sector>, start: nat, n: nat): seq<byte>
    requires start + n <= |store|
    decreases n
  {
    if n == 0 then [] else Flat(store, start, n - 1) + store[start + n - 1]
  }

  /** The store after the first `n` blocks of the payload have gone to the sectors from `start` on. */
  function Stored(store: seq<Sector>, start: nat, payload: seq<byte>, size: nat, n: nat): (s: seq<Sector>)
    requires start + n <= |store| && n * size <= |payload|
    ensures |s| == |store|
    decreases n
  {
    if n == 0 then store
    else
      ProductMonotone(n - 1, n, size);
      Stored(store, start, payload, size, n - 1)[start + n - 1 := payload[(n - 1) * size..n * size]]
  }

  /** Exactly the sectors of the range are replaced, each by its own piece of the payload. */
  lemma {:induction false} StoredSector(store: seq<Sector>, start: nat, payload: seq<byte>, size: nat, n: nat, b: nat)
    requires start + n <= |store| && n * size <= |payload| && b < |store|
    ensures Stored(store, start, payload, size, n)[b] ==
            if start <= b < start + n then BufferSector(payload, size, b - start) else store[b]
    decreases n
  {
    if n > 0 {
      ProductMonotone(n - 1, n, size);
      StoredSector(store, start, payload, size, n - 1, b);
      assert (n - 1) * size + size == n * size;
    }
  }

  /** The k-th sector of the range is the k-th piece of what is sent. */
  lemma {:induction false} FlatSector(store: seq<Sector>, start: nat, n: nat, size: nat, k: nat)
    requires start + n <= |store| && k < n && forall b :: start <= b < start + n ==> |store[b]| == size
    ensures |Flat(store, start, n)| == n * size
    ensures BufferSector(Flat(store, start, n), size, k) == store[start + k]
    decreases n
  {
    FlatLength(store, start, n - 1, size);
    var before := Flat(store, start, n - 1);
    assert (n - 1) * size + size == n * size;
    if k == n - 1 {
      assert Flat(store, start, n)[k * size..k * size + size] == store[start + k];
    } else {
      FlatSector(store, start, n - 1, size, k);
      ProductMonotone(k + 1, n - 1, size);
      assert (k + 1) * size == k * size + size;
      assert Flat(store, start, n)[k * size..k * size + size] == before[k * size..k * size + size];
    }
  }

  lemma {:induction false} FlatLength(store: seq<Sector>, start: nat, n: nat, size: nat)
    requires start + n <= |store| && forall b :: start <= b < start + n ==> |store[b]| == size
    ensures |Flat(store, start, n)| == n * size
    decreases n
  {
    if n > 0 {
      FlatLength(store, start, n - 1, size);
      assert (n - 1) * size + size == n * size;
    }
  }

  /** A longer payload does not change what its first blocks store. */
  lemma {:induction false} StoredPrefix(store: seq<Sector>, start: nat, payload: seq<byte>, more: seq<byte>, size: nat,
      n: nat)
    requires start + n <= |store| && n * size <= |payload|
    ensures Stored(store, start, payload + more, size, n) == Stored(store, start, payload, size, n)
    decreases n
  {
    if n > 0 {
      ProductMonotone(n - 1, n, size);
      StoredPrefix(store, start, payload, more, size, n - 1);
      assert (payload + more)[(n - 1) * size..n * size] == payload[(n - 1) * size..n * size];
    }
  }

  lemma {:induction false} FlatPrefix(store: seq<Sector>, start: nat, m: nat, n: nat)
    requires m <= n && start + n <= |store|
    ensures Flat(store, start, m) <= Flat(store, start, n)
    decreases n
  {
    if m < n {
      FlatPrefix(store, start, m, n - 1);
    }
  }

  /** What holds of a job in every phase: its range is the one in the CDB. A READ has changed nothing and has sent a
      prefix of its sectors; a WRITE has stored exactly the `written` blocks it has counted, and at most one block more
      has been received. */
  ghost predicate Kept(job: Job, written: nat, log: Log, cmd: seq<byte>, disk: seq<Sector>, size: nat) {
    |cmd| == 16 &&
    match job
    case NoJob => true
    case ReadJob(start, count, store, before) =>
      && cmd[0] in READ && Asks(cmd, start, count)
      && 0 < count && start + count <= |store| && disk == store
      && before <= log.sent && log.sent[|before|..] <= Flat(store, start, count)
    case WriteJob(start, count, store, before) =>
      && cmd[0] in WRITE && Asks(cmd, start, count)
      && 0 < count && start + count <= |store| && written <= count && before <= log.received
      && var payload := log.received[|before|..];
         && written * size <= |payload| <= (written + 1) * size && |payload| <= count * size
         && disk == Stored(store, start, payload, size, written)
  }

  /** The job has been carried out completely. */
  ghost predicate Complete(job: Job, written: nat, log: Log, size: nat) {
    match job
    case NoJob => true
    case ReadJob(start, count, store, before) =>
      && start + count <= |store| && log.sent == before + Flat(store, start, count)
      && forall b :: start <= b < start + count ==> |store[b]| == size
    case WriteJob(start, count, store, before) =>
      written == count && |log.received| == |before| + count * size
  }

  /** The data in phase belongs to a command with a single block, or to a READ: `count - blocks` sectors have been sent,
      and the next one is in the buffer or has just been sent. */
  ghost predicate Sends(job: Job, c: Ctrl, log: Log, buffer: seq<byte>, size: nat) {
    match job
    case NoJob => c.blocks == 1
    case ReadJob(start, count, store, before) =>
      && 1 <= c.blocks <= count && start + count <= |store|
      && c.next == start + count - c.blocks + 1
      && (forall b :: start <= b < c.next ==> |store[b]| == size)
      && if c.length > 0 then
           && c.length == size <= |buffer| && c.offset == 0
           && buffer[..size] == store[start + count - c.blocks]
           && log.sent == before + Flat(store, start, count - c.blocks)
         else log.sent == before + Flat(store, start, count - c.blocks + 1)
    case WriteJob(_, _, _, _) => false
  }

  /** The data out phase: for a WRITE, `count - blocks` sectors are stored, and the next one is to be received or has
      just arrived in the buffer. */
  ghost predicate Receives(job: Job, written: nat, c: Ctrl, log: Log, buffer: seq<byte>, opcode: byte, size: nat) {
    match job
    case NoJob => c.blocks == 1 && opcode !in WRITE
    case ReadJob(_, _, _, _) => false
    case WriteJob(start, count, store, before) =>
      && 1 <= c.blocks <= count && written == count - c.blocks
      && c.next == start + written + 1 && size <= |buffer|
      && if c.length > 0 then
           c.length == size && c.offset == 0 && |log.received| == |before| + written * size
         else
           && |log.received| == |before| + (written + 1) * size && size <= |log.received|
           && buffer[..size] == log.received[|log.received| - size..]
  }

  /** A READ that is complete has put the sectors of its range on the bus, in order, each of them as the disk holds
      it. */
  lemma CompleteReadSentSectors(job: Job, written: nat, log: Log, cmd: seq<byte>, disk: seq<Sector>, size: nat, k: nat)
    requires job.ReadJob? && Kept(job, written, log, cmd, disk, size) && Complete(job, written, log, size)
    requires k < job.count
    ensures |log.sent| == |job.sent| + job.count * size
    ensures BufferSector(log.sent[|job.sent|..], size, k) == disk[job.start + k]
  {
    FlatSector(disk, job.start, job.count, size, k);
    assert log.sent[|job.sent|..] == Flat(disk, job.start, job.count);
  }

  /** A WRITE that is complete has stored what it received in the sectors of its range, and nothing elsewhere. */
  lemma CompleteWriteStoredPayload(job: Job, written: nat, log: Log, cmd: seq<byte>, disk: seq<Sector>, size: nat,
      b: nat)
    requires job.WriteJob? && Kept(job, written, log, cmd, disk, size) && Complete(job, written, log, size)
             && b < |disk|
    ensures |log.received| == |job.received| + job.count * size
    ensures disk[b] == if job.start <= b < job.start + job.count
                       then BufferSector(log.received[|job.received|..], size, b - job.start) else job.store[b]
  {
    StoredSector(job.store, job.start, log.received[|job.received|..], size, written, b);
  }

  /** A WRITE whose data stops inside block `k` has written exactly its first `k` blocks. */
  lemma CutWriteStoredFirstBlocks(job: Job, written: nat, log: Log, cmd: seq<byte>, disk: seq<Sector>, size: nat,
      k: nat, b: nat)
    requires job.WriteJob? && Kept(job, written, log, cmd, disk, size) && b < |disk|
    requires |job.received| + k * size < |log.received| < |job.received| + (k + 1) * size
    ensures written == k < job.count
    ensures disk[b] == if job.start <= b < job.start + k
                       then BufferSector(log.received[|job.received|..], size, b - job.start) else job.store[b]
  {
    var payload := log.received[|job.received|..];
    if k >= job.count {
      ProductMonotone(job.count, k, size);
    }
    if written < k {
      ProductMonotone(written + 1, k, size);
    } else if written > k {
      ProductMonotone(k + 1, written, size);
    }
    StoredSector(job.store, job.start, payload, size, written, b);
  }

  lemma {:induction false} FlatOfPieces(disk: seq<Sector>, start: nat, payload: seq<byte>, size: nat, n: nat)
    requires start + n <= |disk| && n * size <= |payload|
    requires forall k :: 0 <= k < n ==> disk[start + k] == BufferSector(payload, size, k)
    ensures Flat(disk, start, n) == payload[..n * size]
    decreases n
  {
    if n > 0 {
      assert (n - 1) * size + size == n * size;
      FlatOfPieces(disk, start, payload, size, n - 1);
      assert BufferSector(payload, size, n - 1) == payload[(n - 1) * size..n * size];
      assert payload[..n * size] == payload[..(n - 1) * size] + payload[(n - 1) * size..n * size];
    }
  }

  // ---------- the invariant ----------

  const TRANSFERS: set<Phase> := {DataIn, DataOut, Status, MsgIn, MsgOut}

  datatype Ctrl = Ctrl(
    phase: Phase, status: byte, message: byte,
    blocks: nat, next: nat, offset: nat, length: nat,
    identifiedLun: int, atnmsg: bool, msc: nat)

  const INITIAL := Ctrl(BusFree, 0, 0, 0, 0, 0, 0, -1, false, 0)

  /** The latest READ or WRITE, how many blocks it has written, and how often there was an error or a reset. */
  datatype Task = Task(job: Job, written: nat, failures: nat)

  ghost predicate Steady(c: Ctrl, task: Task, target: TargetLines, log: Log, cmd: seq<byte>, store: seq<Sector>,
      size: nat) {
    c.msc < 256 && !target.req && (target.bsy <==>
        c.phase != BusFree) && Kept(task.job, task.written, log, cmd, store, size)
  }

  /** In a transfer phase the lines show the phase, there is a block to transfer, and it lies in the buffer. */
  ghost predicate TransferOk(c: Ctrl, target: TargetLines) {
    c.phase in TRANSFERS ==> target.Phase() == c.phase && c.blocks >= 1 && c.offset + c.length <= BUFFER_SIZE
  }

  ghost predicate PhaseOk(c: Ctrl, task: Task, log: Log, buffer: seq<byte>, opcode: byte, size: nat) {
    match c.phase
    case BusFree => !c.atnmsg
    case Selection => !c.atnmsg && task.job.NoJob?
    case MsgOut => c.blocks == 1 && task.job.NoJob?
    case Status => c.blocks == 1 && (c.status == GOOD ==> Complete(task.job, task.written, log, size))
    case MsgIn => c.blocks == 1 && (c.status == GOOD ==> Complete(task.job, task.written, log, size))
    case DataIn => !c.atnmsg && Sends(task.job, c, log, buffer, size)
    case DataOut => !c.atnmsg && Receives(task.job, task.written, c, log, buffer, opcode, size)
    case _ => false
  }

  /** How many calls of `Process` a command is away from bus free. */
  function Rank(c: Ctrl): nat {
    match c.phase
    case DataIn => 2 * c.blocks + if c.length > 0 then 4 else 3
    case DataOut => 2 * c.blocks + if c.length > 0 then 4 else 3
    case Status => if c.length > 0 then 4 else 3
    case MsgIn => if c.length > 0 then 2 else 1
    case _ => 0
  }

  /** `c` is closer to bus free than `d`. */
  predicate Closer(c: Ctrl, d: Ctrl) {
    if c.atnmsg == d.atnmsg then Rank(c) < Rank(d) else d.atnmsg
  }

  /** Nothing went wrong between the two moments. */
  ghost predicate Smooth(task: Task, log: Log, task0: Task, log0: Log) {
    task.failures == task0.failures && log.giveUps == log0.giveUps
  }

  /** What a step leads to from a transfer phase other than message out. */
  ghost predicate Progress(c: Ctrl, task: Task, log: Log, c0: Ctrl, task0: Task, log0: Log) {
    && c.phase in {BusFree, DataIn, DataOut, Status, MsgIn} && Closer(c, c0)
    && task.failures >= task0.failures && log.giveUps >= log0.giveUps
    && (!c0.atnmsg ==> task.job == task0.job)
    && (!c0.atnmsg && Smooth(task, log, task0, log0) ==>
          Rank(c) + 1 == Rank(c0) && (c.phase != BusFree ==> c.status == c0.status))
    && (!c0.atnmsg && c0.phase == MsgIn ==> log.(giveUps := 0) == log0.(giveUps := 0) && task.written == task0.written)
  }

  lemma KeptWhateverGivesUp(task: Task, log: Log, log': Log, cmd: seq<byte>, store: seq<Sector>, size: nat)
    requires Kept(task.job, task.written, log, cmd, store, size) && log'.(giveUps := 0) == log.(giveUps := 0)
    ensures Kept(task.job, task.written, log', cmd, store, size)
    ensures Complete(task.job, task.written, log, size) ==> Complete(task.job, task.written, log', size)
  {
  }

  /** Part of a sector of a READ goes out. */
  lemma SendingKeepsJob(task: Task, c: Ctrl, log: Log, log': Log, buffer: seq<byte>, cmd: seq<byte>, store: seq<Sector>,
      size: nat, n: nat)
    requires Kept(task.job, task.written, log, cmd, store, size) && Sends(task.job, c, log, buffer, size)
    requires n <= c.length <= |buffer| && c.offset + c.length <= |buffer|
    requires log'.sent == log.sent + buffer[c.offset..c.offset + n]
    ensures Kept(task.job, task.written, log', cmd, store, size)
    ensures n == c.length > 0 ==> Sends(task.job, c.(offset := c.offset + n, length := 0), log', buffer, size)
  {
    var job := task.job;
    hide Flat, Asks;
    if c.length > 0 && job.ReadJob? {
      var done := job.count - c.blocks;
      FlatPrefix(job.store, job.start, done + 1, job.count);
      FlatStep(job.store, job.start, done);
      assert log'.sent[|job.sent|..] == Flat(job.store, job.start, done) + buffer[..n];
      assert buffer[..n] <= job.store[job.start + done];
      if n == c.length {
        assert buffer[..n] == job.store[job.start + done];
      }
    }
  }

  /** Part of a sector of a WRITE comes in. */
  lemma ReceivingKeepsJob(task: Task, c: Ctrl, log: Log, log': Log, before: seq<byte>, buffer: seq<byte>,
      cmd: seq<byte>, store: seq<Sector>, size: nat, n: nat)
    requires Kept(task.job, task.written, log, cmd, store, size) && |cmd| == 16
    requires Receives(task.job, task.written, c, log, before, cmd[0], size)
    requires n <= c.length && 0 < c.length && c.offset + c.length <= |buffer| == |before|
    requires log'.received == log.received + buffer[c.offset..c.offset + n]
    ensures Kept(task.job, task.written, log', cmd, store, size)
    ensures n == c.length ==> Receives(task.job, task.written, c.(offset := c.offset + n, length := 0), log', buffer,
        cmd[0], size)
  {
    var job, written := task.job, task.written;
    hide Stored, Asks;
    if job.WriteJob? {
      var payload := log.received[|job.received|..];
      assert log'.received[|job.received|..] == payload + buffer[..n];
      assert |payload| == written * size && (written + 1) * size == written * size + size;
      StoredPrefix(job.store, job.start, payload, buffer[..n], size, written);
      ProductMonotone(written + 1, job.count, size);
      if n == c.length {
        assert log'.received[|log'.received| - size..] == buffer[..size];
      }
    }
  }

  /** A received sector goes to the disk; `c` has counted it already. */
  lemma WritingKeepsJob(task: Task, c: Ctrl, log: Log, buffer: seq<byte>, cmd: seq<byte>, store: seq<Sector>, size: nat)
    requires Kept(task.job, task.written, log, cmd, store, size) && |cmd| == 16 && cmd[0] in WRITE && c.length == 0
    requires Receives(task.job, task.written, c.(blocks := c.blocks + 1), log, buffer, cmd[0], size)
    ensures 0 < c.next <= |store| && (c.blocks > 0 ==> c.next < |store|) && size <= |buffer|
    ensures Kept(task.job, task.written + 1, log, cmd, store[c.next - 1 := buffer[..size]], size)
    ensures c.blocks == 0 ==> Complete(task.job, task.written + 1, log, size)
    ensures c.blocks > 0 ==>
              Receives(task.job, task.written + 1, c.(next := c.next + 1, length := size, offset := 0), log, buffer,
                  cmd[0], size)
  {
    var job, written := task.job, task.written;
    hide Asks;
    var payload := log.received[|job.received|..];
    assert (written + 1) * size == written * size + size && (written + 2) * size == (written + 1) * size + size;
    assert buffer[..size] == payload[written * size..(written + 1) * size];
  }

  lemma FlatStep(store: seq<Sector>, start: nat, n: nat)
    requires start + n < |store|
    ensures Flat(store, start, n + 1) == Flat(store, start, n) + store[start + n]
  {
  }

  // ---------- the messages of an initiator ----------

  const ABORT: byte := 0x06
  const BUS_DEVICE_RESET: byte := 0x0C
  const EXTENDED_MESSAGE: byte := 0x01
  const MESSAGE_REJECT: byte := 0x07

  datatype Reply = FreeTheBus | Reject(lun: int) | Proceed(lun: int)

  /** What the target makes of the messages, given the LUN that is identified so far. */
  function Parse(messages: seq<byte>, lun: int): Reply {
    if messages == [] then Proceed(lun)
    else if messages[0] in {ABORT, BUS_DEVICE_RESET} then FreeTheBus
    else if messages[0] == EXTENDED_MESSAGE then Reject(lun)
    else Parse(messages[1..], if messages[0] >= 0x80 then messages[0] % 0x20 else lun)
  }

  predicate Ends(message: byte) {
    message in {0x01, 0x06, 0x0C}
  }

  predicate IsFirstEnd(messages: seq<byte>, k: nat) {
    k < |messages| && Ends(messages[k]) && forall j :: 0 <= j < k ==> !Ends(messages[j])
  }

  predicate IsLastIdentify(messages: seq<byte>, k: nat) {
    k < |messages| && messages[k] >= 0x80 && forall j :: k < j < |messages| ==> messages[j] < 0x80
  }

  /** The first ABORT, BUS DEVICE RESET or extended message decides. Without one the command follows, and the last
      IDENTIFY message gives the LUN. */
  lemma {:induction false} FirstMessageDecides(messages: seq<byte>, lun: int)
    ensures (forall k :: 0 <= k < |messages| ==> !Ends(messages[k])) <==> Parse(messages, lun).Proceed?
    ensures forall k: nat :: IsFirstEnd(messages, k) ==>
              if messages[k] == 0x01 then Parse(messages, lun).Reject? else Parse(messages, lun).FreeTheBus?
    ensures Parse(messages, lun).Proceed? ==>
              && (forall k: nat :: IsLastIdentify(messages, k) ==> Parse(messages, lun).lun == messages[k] % 0x20)
              && ((forall k :: 0 <= k < |messages| ==> messages[k] < 0x80) ==> Parse(messages, lun).lun == lun)
  {
    if messages != [] && !Ends(messages[0]) {
      var rest, next := messages[1..], if messages[0] >= 0x80 then messages[0] % 0x20 else lun;
      FirstMessageDecides(rest, next);
      assert Parse(messages, lun) == Parse(rest, next);
      hide Parse;
      assert forall k: nat :: 0 < k < |messages| ==> messages[k] == rest[k - 1];
      assert forall k: nat :: IsFirstEnd(messages, k) ==> k > 0 && IsFirstEnd(rest, k - 1);
      assert forall k: nat :: IsLastIdentify(messages, k) ==>
          if k == 0 then forall j :: 0 <= j < |rest| ==> rest[j] < 0x80 else IsLastIdentify(rest, k - 1);
    }
  }

  // ---------- commands other than READ and WRITE ----------

  /** A complete CDB. */
  predicate IsCdb(bytes: seq<byte>) {
    bytes != [] && |bytes| == CommandByteCount(bytes[0])
  }

  lemma NoCdb()
    ensures WithoutIcd([]) == [] && WithoutIcd([ICD_PREFIX]) == []
  {
  }

  type Block = s: seq<byte> | |s| <= BUFFER_SIZE
  type BlockLength = n: nat | n <= BUFFER_SIZE

  /** How a device takes such a command. */
  datatype Answer = Refuses(error: ScsiError) | Offers(data: Block) | Expects(length: BlockLength)

  /** The sense data of a status code. */
  function SenseData(code: nat): (data: seq<byte>)
    ensures |data| == 18
  {
    [0x70, 0, code / 0x1_0000 % 0x100, 0, 0, 0, 0, 10, 0, 0, 0, 0, code / 0x100 % 0x100, code % 0x100, 0, 0, 0, 0]
  }

  /** REQUEST SENSE reports what `Error` has recorded. */
  lemma SenseReportsError(error: ScsiError)
    requires error.key < 0x100 && error.asc < 0x100
    ensures var data := SenseData(error.key * 0x1_0000 + error.asc * 0x100);
            && data[0] == 0x70 && data[2] == error.key && data[7] == 10 && data[12] == error.asc
            && forall i :: 0 <= i < 18 && i !in {0, 2, 7, 12} ==> data[i] == 0
  {
    CodeParts(error.key, error.asc);
  }

  lemma CodeParts(key: nat, asc: nat)
    requires key < 0x100 && asc < 0x100
    ensures var code := key * 0x1_0000 + asc * 0x100; code / 0x1_0000 % 0x100 == key && code / 0x100 % 0x100 == asc
  {
    var code := key * 0x1_0000 + asc * 0x100;
    assert code / 0x1_0000 == key;
    assert code / 0x100 == key * 0x100 + asc;
  }

  // ---------- the controller ----------

  class ScsiController {
    const bus: Bus
    const targetId: nat
    const disk: Disk
    const buffer: array<byte>
    const cmd: array<byte>
    const msb: array<byte>
    var ctrl: Ctrl
    ghost var task: Task

    ghost predicate Structure()
      reads disk.dcache, disk.dcache.Repr
    {
      && targetId < 8 && buffer.Length == BUFFER_SIZE && cmd.Length == 16 && msb.Length == 256
      && buffer != cmd && buffer != msb && cmd != msb
      && this !in disk.dcache.Repr && bus !in disk.dcache.Repr && disk !in disk.dcache.Repr
      && buffer !in disk.dcache.Repr && cmd !in disk.dcache.Repr && msb !in disk.dcache.Repr
      && disk.Valid() && 0 < Size() <= BUFFER_SIZE
    }

    function Size(): nat {
      disk.Size()
    }

    /** What every method finds and keeps, whatever the phase. */
    ghost predicate Ready()
      reads `ctrl, `task, bus`target, bus`log, bus`trace, cmd, disk.dcache, disk.dcache.Repr
    {
      Structure() && bus.Settled() && Steady(ctrl, task, bus.target, bus.log, cmd[..], disk.Store(), Size())
    }

    ghost predicate JobDone()
      reads `task, bus`log
    {
      Complete(task.job, task.written, bus.log, Size())
    }

    ghost predicate SendsData()
      reads `task, `ctrl, bus`log, buffer
    {
      Sends(task.job, ctrl, bus.log, buffer[..], Size())
    }

    ghost predicate ReceivesData()
      requires cmd.Length == 16
      reads `task, `ctrl, bus`log, buffer, cmd
    {
      Receives(task.job, task.written, ctrl, bus.log, buffer[..], cmd[0], Size())
    }

    ghost predicate Valid()
      reads `ctrl, `task, bus`target, bus`log, bus`trace, buffer, cmd, disk.dcache, disk.dcache.Repr
    {
      && Ready() && TransferOk(ctrl, bus.target)
      && PhaseOk(ctrl, task, bus.log, buffer[..], cmd[0], Size())
    }

    /** In a transfer phase the lines are those of the phase (section 6.1.5 of SCSI-2), whatever the state; in bus free
        BSY is off. */
    lemma LinesShowPhase()
      requires Valid()
      ensures bus.target.bsy <==> ctrl.phase != BusFree
      ensures ctrl.phase in TRANSFERS ==>
                && (bus.target.io <==> ctrl.phase in {DataIn, Status, MsgIn})
                && (bus.target.cd <==> ctrl.phase in {Status, MsgIn, MsgOut})
                && (bus.target.msg <==> ctrl.phase in {MsgIn, MsgOut})
                && !bus.target.req
    {
      hide Disk.Valid, Bus.Settled, SectorSize, Kept, Complete, Sends, Receives;
    }

    /** The sectors that a complete WRITE has stored are the bytes that the initiator has shown on the bus in the data
        out phase since it began, one after the other. */
    lemma WrittenFromTheBus() returns (places: seq<nat>)
      requires Ready() && task.job.WriteJob? && JobDone()
      ensures task.job.start + task.job.count <= |disk.Store()|
      ensures ShownByInitiator(bus.trace, Flat(disk.Store(), task.job.start, task.job.count), places)
    {
      hide Disk.Valid, SectorSize, Asks, Stored, PhaseOf, HeldStill, HeardOf, Takes, Increasing;
      var job, log, size := task.job, bus.log, Size();
      var all, _ := ReceivedIsShown(bus.trace);
      ReceivedLater(bus.trace, log.received, all, |job.received|);
      places := all[|job.received|..];
      var payload := log.received[|job.received|..];
      forall k | 0 <= k < job.count
        ensures job.start + k < |disk.Store()| && disk.Store()[job.start + k] == BufferSector(payload, size, k)
      {
        CompleteWriteStoredPayload(job, task.written, log, cmd[..], disk.Store(), size, job.start + k);
      }
      FlatOfPieces(disk.Store(), job.start, payload, size, job.count);
      assert payload[..job.count * size] == payload;
    }

    /** A complete READ has put the sectors of its range on the bus in the data in phase since it began, one byte after
        the other, each of them until the initiator acknowledged it. */
    lemma ReadOntoTheBus() returns (places: seq<nat>)
      requires Ready() && task.job.ReadJob? && JobDone()
      ensures task.job.start + task.job.count <= |disk.Store()|
      ensures ShownToInitiator(bus.trace, Flat(disk.Store(), task.job.start, task.job.count), places)
    {
      hide Disk.Valid, SectorSize, Asks, Flat, PhaseOf, HeldStill, HeardOf, Gives, Increasing;
      var job, log := task.job, bus.log;
      var all := SentIsShown(bus.trace);
      SentLater(bus.trace, log.sent, all, |job.sent|);
      places := all[|job.sent|..];
      assert log.sent[|job.sent|..] == Flat(disk.Store(), job.start, job.count);
    }

    constructor (bus: Bus, targetId: nat, disk: Disk)
      requires targetId < 8 && disk.Valid() && 0 < disk.Size() <= BUFFER_SIZE && bus !in disk.dcache.Repr
               && bus.Settled()
      modifies bus`target
      ensures Valid() && ctrl == INITIAL && task == Task(NoJob, 0, 0)
      ensures this.bus == bus && this.disk == disk && this.targetId == targetId
    {
      hide SectorSize;
      this.bus, this.targetId, this.disk := bus, targetId, disk;
      buffer := new byte[BUFFER_SIZE];
      cmd := new byte[16];
      msb := new byte[256];
      ctrl := INITIAL;
      task := Task(NoJob, 0, 0);
      new;
      bus.Reset();
    }

    function EffectiveLun(): int
      requires cmd.Length == 16
      reads `ctrl, cmd
    {
      if ctrl.identifiedLun != -1 then ctrl.identifiedLun else cmd[1] / 0x20
    }

    /** The only device is at LUN 0. */
    predicate HasDeviceForLun(lun: int) {
      lun == 0
    }

    // ---------- bus free, reset, errors ----------

    method ClearMessages()
      modifies msb
      ensures forall i :: 0 <= i < msb.Length ==> msb[i] == 0
    {
      forall i | 0 <= i < msb.Length {
        msb[i] := 0;
      }
    }

    /** Resets the controller, the device and the bus. */
    method Reset()
      requires Ready()
      modifies `ctrl, msb, disk, bus`target
      ensures Valid() && ctrl == INITIAL && bus.target == ALL_OFF
      ensures !disk.reset && !disk.attn && disk.statusCode == old(disk.statusCode)
      ensures forall i :: 0 <= i < msb.Length ==> msb[i] == 0
    {
      hide Disk.Valid, Bus.Settled, SectorSize, Kept, Complete, Sends, Receives;
      ctrl := INITIAL;
      ClearMessages();
      disk.reset, disk.attn := false, false;
      bus.Reset();
    }

    method EnterBusFree()
      requires Ready() && ctrl.phase != BusFree
      modifies `ctrl, bus`target
      ensures Valid() && bus.target == ALL_OFF
      ensures ctrl == old(ctrl).(phase := BusFree, status := 0, message := 0, atnmsg := false, identifiedLun := -1)
    {
      hide Disk.Valid, Bus.Settled, SectorSize, Kept, Complete, Sends, Receives;
      ctrl := ctrl.(phase := BusFree, status := 0, message := 0, atnmsg := false, identifiedLun := -1);
      bus.target := ALL_OFF;
    }

    /** An error in the status or message in phase frees the bus, any other leads to the status phase; RST resets
        everything. */
    method Error(error: ScsiError)
      requires Ready() && ctrl.phase != BusFree
      modifies `ctrl, `task, msb, disk, buffer, bus`target
      ensures Valid() && task == old(task).(failures := old(task).failures + 1)
      ensures ctrl.phase == if bus.initiator.rst || old(ctrl).phase in {Status, MsgIn} then BusFree else Status
      ensures ctrl.phase == Status ==> ctrl == old(ctrl).(phase := Status, status := CHECK_CONDITION,
                                                       message := 0, offset := 0, length := 1, blocks := 1)
      ensures ctrl.phase == Status && (error.key != 0 || error.asc != 0) ==>
                disk.statusCode == error.key * 0x1_0000 + error.asc * 0x100
    {
      hide Disk.Valid, Bus.Settled, SectorSize, Kept, Complete, Sends, Receives;
      task := task.(failures := task.failures + 1);
      if bus.initiator.rst {
        Reset();
        return;
      }
      if ctrl.phase == Status || ctrl.phase == MsgIn {
        EnterBusFree();
        return;
      }
      if error.key != 0 || error.asc != 0 {
        disk.statusCode := error.key * 0x1_0000 + error.asc * 0x100;
      }
      ctrl := ctrl.(status := CHECK_CONDITION, message := 0);
      EnterStatus();
    }

    // ---------- entering the transfer phases ----------

    method ShowPhase(msg: bool, cd: bool, io: bool)
      modifies bus`target
      ensures bus.target == old(bus.target).(msg := msg, cd := cd, io := io, dat := 0)
    {
      bus.target := bus.target.(msg := msg, cd := cd, io := io, dat := 0);
    }

    method EnterStatus()
      requires Ready() && ctrl.phase !in {BusFree, Status}
      requires ctrl.status == GOOD ==> JobDone()
      modifies `ctrl, buffer, bus`target
      ensures Valid() && ctrl == old(ctrl).(phase := Status, offset := 0, length := 1, blocks := 1)
      ensures buffer[0] == ctrl.status
    {
      hide Disk.Valid, Bus.Settled, SectorSize, Kept, Complete, Sends, Receives;
      ShowPhase(false, true, true);
      ctrl := ctrl.(phase := Status, offset := 0, length := 1, blocks := 1);
      buffer[0] := ctrl.status;
    }

    /** Sends a message of one byte next. */
    method EnterMsgIn(message: byte)
      requires Ready() && ctrl.phase !in {BusFree, MsgIn}
      requires ctrl.status == GOOD ==> JobDone()
      modifies `ctrl, buffer, bus`target
      ensures Valid() && ctrl == old(ctrl).(phase := MsgIn, offset := 0, length := 1, blocks := 1)
      ensures buffer[0] == message
    {
      hide Disk.Valid, Bus.Settled, SectorSize, Kept, Complete, Sends, Receives;
      ShowPhase(true, true, true);
      ctrl := ctrl.(phase := MsgIn, offset := 0, length := 1, blocks := 1);
      buffer[0] := message;
    }

    /** ATN was raised during selection. */
    method EnterMsgOut()
      requires Ready() && task.job.NoJob? && ctrl.phase == Selection
      modifies `ctrl, msb, bus`target
      ensures Valid() && forall i :: 0 <= i < msb.Length ==> msb[i] == 0
      ensures ctrl == old(ctrl).(atnmsg := true, msc := 0, phase := MsgOut, offset := 0, length := 1, blocks := 1)
    {
      hide Disk.Valid, Bus.Settled, SectorSize, Kept, Complete, Sends, Receives;
      ClearMessages();
      ShowPhase(true, true, false);
      ctrl := ctrl.(atnmsg := true, msc := 0, phase := MsgOut, offset := 0, length := 1, blocks := 1);
    }

    method EnterDataIn()
      requires Ready() && !ctrl.atnmsg && ctrl.phase in {Execute, Status}
      requires 0 < ctrl.length <= BUFFER_SIZE && ctrl.offset == 0 && ctrl.blocks > 0 && SendsData()
      modifies `ctrl, bus`target
      ensures Valid() && ctrl == old(ctrl).(phase := DataIn)
    {
      hide Disk.Valid, Bus.Settled, SectorSize, Kept, Complete;
      ShowPhase(false, false, true);
      ctrl := ctrl.(phase := DataIn);
    }

    method EnterDataOut()
      requires Ready() && !ctrl.atnmsg && ctrl.phase == Execute
      requires 0 < ctrl.length <= BUFFER_SIZE && ctrl.offset == 0 && ctrl.blocks > 0 && ReceivesData()
      modifies `ctrl, bus`target
      ensures Valid() && ctrl == old(ctrl).(phase := DataOut)
    {
      hide Disk.Valid, Bus.Settled, SectorSize, Kept, Complete;
      ShowPhase(false, false, false);
      ctrl := ctrl.(phase := DataOut);
    }

    // ---------- sending ----------

    /** Sends what is pending; only a part, if a wait gives up. */
    method SendBlock()
      requires Valid() && ctrl.phase in {DataIn, Status, MsgIn} && ctrl.length != 0
      modifies `ctrl, `task, msb, disk, buffer, bus
      ensures Valid() && Progress(ctrl, task, bus.log, old(ctrl), old(task), old(bus.log)) && task.job == old(task).job
      ensures task.failures == old(task).failures + if ctrl.phase == old(ctrl).phase then 0 else 1
      ensures ctrl.phase in {old(ctrl).phase, Status, BusFree} && (!old(ctrl).atnmsg ==> !ctrl.atnmsg)
      ensures ctrl.phase != old(ctrl).phase ==> bus.log.giveUps > old(bus.log).giveUps
      ensures bus.Taken() == old(bus.Taken()) && old(bus.Given()) <= bus.Given()
      ensures ctrl.phase == old(ctrl).phase ==>
                bus.Given() == old(bus.Given()) + buffer[old(ctrl).offset..old(ctrl).offset + old(ctrl).length]
    {
      hide Disk.Valid, Bus.Settled, SectorSize, Kept, Complete, Sends, Receives;
      var n := bus.SendHandShake(buffer, ctrl.offset, ctrl.length);
      if ctrl.phase == DataIn {
        SendingKeepsJob(task, ctrl, old(bus.log), bus.log, buffer[..], cmd[..], disk.Store(), Size(), n);
      } else {
        KeptWhateverGivesUp(task, old(bus.log), bus.log, cmd[..], disk.Store(), Size());
      }
      if n != ctrl.length {
        Error(ScsiError(ABORTED_COMMAND, NO_ADDITIONAL_SENSE_INFORMATION));
        return;
      }
      ctrl := ctrl.(offset := ctrl.offset + ctrl.length, length := 0);
    }

    /** Gets the next sector of a READ into the buffer. It is never out of range. */
    method XferIn() returns (ok: bool, ghost cause: Outcome)
      requires Ready() && ctrl.phase == DataIn && task.job.ReadJob? && ctrl.length == 0
      requires 1 <= ctrl.blocks && SendsNext()
      modifies `ctrl, disk, disk.dcache.Repr, buffer
      ensures Ready() && fresh(disk.dcache.Repr - old(disk.dcache.Repr))
      ensures !ok ==> ctrl == old(ctrl)
      ensures cause.Fail? ==> cause.error.key != ILLEGAL_REQUEST
      ensures ok ==> SendsData() && ctrl == old(ctrl).(length := Size(), next := old(ctrl).next + 1, offset := 0)
    {
      hide Disk.Valid, Bus.Settled, SectorSize, Complete, Receives, Flat, Asks;
      cause := Done;
      disk.HoldsAllBlocks();
      if !HasDeviceForLun(EffectiveLun()) {
        return false, cause;
      }
      var r := disk.Read(buffer, ctrl.next);
      cause := r;
      if r.Fail? {
        return false, cause;
      }
      ctrl := ctrl.(length := Size(), next := ctrl.next + 1, offset := 0);
      ok := true;
    }

    /** A sector of a READ has been sent and counted, and there is one more to send. */
    ghost predicate SendsNext()
      reads `task, `ctrl, bus`log, buffer
    {
      Sends(task.job, ctrl.(blocks := ctrl.blocks + 1), bus.log, buffer[..], Size())
    }

    // ---------- commands ----------

    /** READ and WRITE: enters the data phase if the range lies on the disk, is not empty, and the device is ready for
        the first sector. */
    method StartTransfer()
      requires Ready() && !ctrl.atnmsg && ctrl.phase == Execute && !bus.initiator.rst
      requires cmd[0] in READ || cmd[0] in WRITE
      requires task.job.NoJob? && ctrl.offset == 0 && ctrl.length == 0 && ctrl.status == GOOD
      modifies `ctrl, `task, msb, disk, disk.dcache.Repr, buffer, bus`target
      ensures Valid() && fresh(disk.dcache.Repr - old(disk.dcache.Repr)) && disk.Store() == old(disk.Store())
      ensures ctrl.phase in {Status, DataIn, DataOut} && !ctrl.atnmsg && task.failures >= old(task).failures
      ensures ctrl.phase in {DataIn, DataOut} <==> !task.job.NoJob?
      ensures task.job.ReadJob? ==>
          ctrl.phase == DataIn && task.job.store == old(disk.Store()) && task.job.sent == bus.log.sent
      ensures task.job.WriteJob? ==>
          ctrl.phase == DataOut && task.job.store == old(disk.Store()) && task.job.received == bus.log.received
      ensures !task.job.NoJob? ==> Rank(ctrl) == 2 * task.job.count + 4
      ensures !task.job.NoJob? ==> Asks(cmd[..], task.job.start, task.job.count)
      ensures forall start: nat, count: nat :: Asks(cmd[..], start, count) ==>
                && (start + count > |disk.Store()| ==>
                      && ctrl.phase == Status && ctrl.status == CHECK_CONDITION
                      && disk.statusCode == ILLEGAL_REQUEST * 0x1_0000 + LBA_OUT_OF_RANGE * 0x100)
                && (start + count <= |disk.Store()| && count == 0 ==> ctrl.phase == Status && ctrl.status == GOOD)
                && (start + count <= |disk.Store()| && count > 0 && cmd[0] in WRITE ==>
                      (task.job.WriteJob? <==> old(disk.Attentive() && !disk.writeProtected)))
                && (start + count <= |disk.Store()| && count > 0 && cmd[0] in READ && old(disk.Attentive()) ==>
                      disk.Healthy(old(disk.dcache.image.bytes), old(disk.dcache.image.faults)) ==> task.job.ReadJob?)
      ensures task.job.NoJob? && ctrl.status == GOOD ==>
                forall start: nat, count: nat :: Asks(cmd[..], start, count) ==> count == 0
    {
      hide Disk.Valid, Bus.Settled, Disk.Healthy, SectorSize, Flat, Stored, Asks, Sends, Receives, Complete;
      var start, count := StartOf(cmd[..], ModeOf(cmd[0])), CountOf(cmd[..], ModeOf(cmd[0]));
      FieldsAreAsked(cmd[..]);
      hide StartOf, CountOf, ModeOf;
      AskedOnce(cmd[..], start, count);
      disk.HoldsAllBlocks();
      ctrl := ctrl.(blocks := count);
      if start > disk.dcache.blocks || start + count > disk.dcache.blocks {
        Error(ScsiError(ILLEGAL_REQUEST, LBA_OUT_OF_RANGE));
        return;
      }
      if count == 0 {
        NothingToDo();
        return;
      }
      if cmd[0] in READ {
        StartRead(start, count);
      } else {
        StartWrite(start, count);
      }
    }

    method StartRead(start: nat, count: nat)
      requires Ready() && !ctrl.atnmsg && ctrl.phase == Execute && !bus.initiator.rst
      requires cmd[0] in READ && Asks(cmd[..], start, count)
      requires task.job.NoJob? && ctrl.offset == 0 && 0 < count == ctrl.blocks && start + count <= |disk.Store()|
      modifies `ctrl, `task, msb, disk, disk.dcache.Repr, buffer, bus`target
      ensures Valid() && fresh(disk.dcache.Repr - old(disk.dcache.Repr)) && disk.Store() == old(disk.Store())
      ensures ctrl.phase == if task.job.NoJob? then Status else DataIn
      ensures !ctrl.atnmsg && task.failures >= old(task).failures
      ensures old(disk.Attentive()) && disk.Healthy(old(disk.dcache.image.bytes), old(disk.dcache.image.faults)) ==>
                task.job.ReadJob?
      ensures if task.job.NoJob? then ctrl.status == CHECK_CONDITION
              else task.job == ReadJob(start, count, disk.Store(), bus.log.sent) && Rank(ctrl) == 2 * count + 4
    {
      hide Disk.Valid, Bus.Settled, SectorSize, Flat, Stored, Asks;
      disk.HoldsAllBlocks();
      var r := disk.Read(buffer, start);
      if r.Fail? {
        Error(r.error);
        return;
      }
      ctrl := ctrl.(length := Size(), next := start + 1);
      task := task.(job := ReadJob(start, count, disk.Store(), bus.log.sent), written := 0);
      NothingSent(disk.Store(), start, bus.log.sent);
      EnterDataIn();
    }

    method StartWrite(start: nat, count: nat)
      requires Ready() && !ctrl.atnmsg && ctrl.phase == Execute && !bus.initiator.rst
      requires cmd[0] in WRITE && Asks(cmd[..], start, count)
      requires task.job.NoJob? && ctrl.offset == 0 && 0 < count == ctrl.blocks && start + count <= |disk.Store()|
      modifies `ctrl, `task, msb, disk, buffer, bus`target
      ensures Valid()
      ensures ctrl.phase == if task.job.NoJob? then Status else DataOut
      ensures !ctrl.atnmsg && task.failures >= old(task).failures
      ensures task.job.WriteJob? <==> old(disk.Attentive() && !disk.writeProtected)
      ensures if task.job.NoJob? then ctrl.status == CHECK_CONDITION
              else task.job == WriteJob(start, count, disk.Store(), bus.log.received) && Rank(ctrl) == 2 * count + 4
    {
      hide Disk.Valid, Bus.Settled, SectorSize, Flat, Asks;
      disk.HoldsAllBlocks();
      var r := disk.WriteCheck(start);
      if r.Fail? {
        Error(r.error);
        return;
      }
      ctrl := ctrl.(length := Size(), next := start + 1);
      task := task.(job := WriteJob(start, count, disk.Store(), bus.log.received), written := 0);
      EnterDataOut();
    }

    method CopyToBuffer(data: seq<byte>)
      requires |data| <= buffer.Length
      modifies buffer
      ensures buffer[..|data|] == data
    {
      forall i | 0 <= i < |data| {
        buffer[i] := data[i];
      }
    }

    /** Reports the latest error. For an absent LUN the status is GOOD all the same; with an allocation length of 0 the
        status phase that the error has entered then ends without its status byte having been sent. */
    method RequestSense()
      requires Ready() && !ctrl.atnmsg && ctrl.phase == Execute && !bus.initiator.rst
      requires task.job.NoJob? && ctrl.offset == 0 && ctrl.length == 0 && ctrl.blocks == 1
      modifies `ctrl, `task, msb, disk, buffer, bus`target
      ensures Valid() && ctrl.phase in {Status, DataIn, MsgIn} && !ctrl.atnmsg
      ensures task == old(task).(failures := task.failures) && task.failures >= old(task).failures
      ensures ctrl.phase == MsgIn <==> !HasDeviceForLun(old(EffectiveLun())) && cmd[4] == 0
      ensures ctrl.phase == DataIn ==> ctrl.length == (if cmd[4] > 18 then 18 else cmd[4])
                                       && buffer[..ctrl.length] == SenseData(disk.statusCode)[..ctrl.length]
      ensures ctrl.phase == DataIn && !HasDeviceForLun(old(EffectiveLun())) ==>
                ctrl.status == GOOD && disk.statusCode == ILLEGAL_REQUEST * 0x1_0000 + INVALID_LUN * 0x100
    {
      hide Disk.Valid, Bus.Settled, SectorSize, Flat, Stored, Kept, SenseData;
      if !HasDeviceForLun(EffectiveLun()) {
        Error(ScsiError(ILLEGAL_REQUEST, INVALID_LUN));
        ctrl := ctrl.(status := GOOD);
      }
      if disk.statusCode == 0 && !disk.ready {
        Error(ScsiError(NOT_READY, MEDIUM_NOT_PRESENT));
        return;
      }
      var length := if cmd[4] > 18 then 18 else cmd[4];
      CopyToBuffer(SenseData(disk.statusCode)[..length]);
      ctrl := ctrl.(length := length);
      if length > 0 {
        EnterDataIn();
      } else if ctrl.phase == Status {
        EnterMsgIn(ctrl.message);
      } else {
        NothingToDo();
      }
    }

    method NothingToDo()
      requires Ready() && ctrl.phase == Execute && task.job.NoJob?
      modifies `ctrl, buffer, bus`target
      ensures Valid() && ctrl == old(ctrl).(phase := Status, offset := 0, length := 1, blocks := 1)
    {
      hide Disk.Valid, Bus.Settled, SectorSize, Kept, Sends, Receives;
      EnterStatus();
    }

    /** Any other command: the device refuses it, has nothing to transfer, or sends or expects a single block. */
    method OtherCommand(answer: Answer)
      requires Ready() && !ctrl.atnmsg && ctrl.phase == Execute && !bus.initiator.rst
      requires task.job.NoJob? && cmd[0] !in WRITE && ctrl.offset == 0 && ctrl.length == 0 && ctrl.blocks == 1
      modifies `ctrl, `task, msb, disk, buffer, bus`target
      ensures Valid() && ctrl.phase in {Status, DataIn, DataOut} && !ctrl.atnmsg
      ensures task == old(task).(failures := task.failures) && task.failures >= old(task).failures
      ensures match answer
              case Refuses(error) => ctrl.phase == Status && ctrl.status == CHECK_CONDITION
                && task.failures > old(task).failures
              case Offers(data) =>
                if data == [] then ctrl == old(ctrl).(phase := Status, length := 1)
                else ctrl == old(ctrl).(phase := DataIn, length := |data|) && buffer[..|data|] == data
              case Expects(length) =>
                ctrl == if length == 0 then old(ctrl).(phase := Status, length := 1)
                    else old(ctrl).(phase := DataOut, length := length)
    {
      hide Disk.Valid, Bus.Settled, SectorSize, Flat, Stored, Kept, Complete;
      match answer {
        case Refuses(error) =>
          Error(error);
        case Offers(data) =>
          CopyToBuffer(data);
          if |data| == 0 {
            NothingToDo();
          } else {
            ctrl := ctrl.(length := |data|);
            EnterDataIn();
          }
        case Expects(length) =>
          if length == 0 {
            NothingToDo();
          } else {
            ctrl := ctrl.(length := length);
            EnterDataOut();
          }
      }
    }

    /** Has the device carry out the command. */
    method Dispatch(answer: Answer)
      requires Ready() && !ctrl.atnmsg && ctrl.phase == Execute && !bus.initiator.rst
      requires task.job.NoJob? && ctrl.offset == 0 && ctrl.length == 0 && ctrl.blocks == 1
      requires cmd[0] in READ || cmd[0] in WRITE ==> ctrl.status == GOOD
      modifies `ctrl, `task, msb, disk, disk.dcache.Repr, buffer, bus`target
      ensures Dispatched(old(task), old(disk.Store())) && fresh(disk.dcache.Repr - old(disk.dcache.Repr))
    {
      hide Disk.Valid, Bus.Settled, SectorSize, Flat, Stored, Kept, Complete, Sends, Receives, Asks;
      if disk.mediumChanged {
        disk.mediumChanged := false;
        Error(ScsiError(UNIT_ATTENTION, NOT_READY_TO_READY_CHANGE));
        return;
      }
      if cmd[0] in READ || cmd[0] in WRITE {
        StartTransfer();
      } else if cmd[0] == REQUEST_SENSE {
        RequestSense();
      } else {
        OtherCommand(answer);
      }
    }

    /** What a command leads to. A READ or WRITE with a status of GOOD is either under way, on the disk as the command
        found it, or has nothing to transfer. */
    ghost predicate Dispatched(task0: Task, store0: seq<Sector>)
      reads `ctrl, `task, bus`target, bus`log, bus`trace, buffer, cmd, disk.dcache, disk.dcache.Repr
    {
      && Valid() && ctrl.phase in {Status, DataIn, DataOut, MsgIn} && !ctrl.atnmsg && task.failures >= task0.failures
      && disk.Store() == store0
      && (task.job.ReadJob? ==> ctrl.phase == DataIn && task.job.store == store0 && task.job.sent == bus.log.sent)
      && (task.job.WriteJob? ==>
          ctrl.phase == DataOut && task.job.store == store0 && task.job.received == bus.log.received)
      && (!task.job.NoJob? ==> Rank(ctrl) == 2 * task.job.count + 4)
      && (cmd[0] in READ || cmd[0] in WRITE ==>
            forall start: nat, count: nat :: Asks(cmd[..], start, count) ==>
              && (start + count > |store0| ==> ctrl.status == CHECK_CONDITION)
              && (task.job.NoJob? && ctrl.status == GOOD ==> count == 0))
    }

    method ExecuteCommand()
      requires Ready() && !ctrl.atnmsg && ctrl.phase == Command && !bus.initiator.rst && task.job.NoJob?
               && ctrl.length == 0
      modifies `ctrl, `task, msb, disk, disk.dcache.Repr, buffer, bus`target
      ensures Dispatched(old(task), old(disk.Store())) && fresh(disk.dcache.Repr - old(disk.dcache.Repr))
      ensures !HasDeviceForLun(old(EffectiveLun())) && cmd[0] !in {INQUIRY, REQUEST_SENSE} ==>
                ctrl.phase == Status && ctrl.status == CHECK_CONDITION
                && disk.statusCode == ILLEGAL_REQUEST * 0x1_0000 + INVALID_LUN * 0x100
    {
      hide Disk.Valid, Bus.Settled, SectorSize, Flat, Stored, Kept, Complete, Sends, Receives, Asks;
      ctrl := ctrl.(phase := Execute, offset := 0, blocks := 1,
                    status := if cmd[0] != REQUEST_SENSE then GOOD else ctrl.status);
      if !HasDeviceForLun(EffectiveLun()) && cmd[0] !in {INQUIRY, REQUEST_SENSE} {
        Error(ScsiError(ILLEGAL_REQUEST, INVALID_LUN));
        return;
      }
      if cmd[0] != REQUEST_SENSE {
        disk.statusCode := 0;
      }
      var answer: Answer := *;
      Dispatch(answer);
    }

    /** Receives a CDB and executes it, if and only if all the bytes its operation code promises have arrived. */
    method EnterCommand() returns (ghost stream: seq<byte>, ghost executed: bool)
      requires Ready() && !ctrl.atnmsg && ctrl.phase in {Selection, MsgOut, MsgIn}
      modifies `ctrl, `task, msb, disk, disk.dcache.Repr, buffer, cmd, bus
      ensures fresh(disk.dcache.Repr - old(disk.dcache.Repr)) && bus.log.giveUps >= old(bus.log).giveUps
      ensures bus.log.(giveUps := 0) == old(bus.log).(giveUps := 0)
      ensures (executed <==> IsCdb(WithoutIcd(stream))) && bus.TakenIs(old(bus.Taken()) + stream, executed)
      ensures executed ==> WithoutIcd(stream) <= cmd[..] && Dispatched(old(task), old(disk.Store()))
      ensures !executed ==>
                && Valid() && cmd[..] == old(cmd[..]) && !ctrl.atnmsg
                && ctrl.phase == (if bus.initiator.rst then BusFree else Status)
                && (ctrl.phase == Status ==>
                    ctrl.status == CHECK_CONDITION && disk.statusCode == ABORTED_COMMAND * 0x1_0000)
                && task == Task(NoJob, old(task).written, old(task).failures + 1)
    {
      hide Disk.Valid, Bus.Settled, SectorSize, Flat, Stored, Kept, Complete, Sends, Receives, Asks,
          CommandByteCount, WithoutIcd, IsCdb;
      var ok;
      ok, stream := ReceiveCommand();
      executed := ok;
      if ok {
        ExecuteCommand();
      }
    }

    method ReceiveCommand() returns (ok: bool, ghost stream: seq<byte>)
      requires Ready() && !ctrl.atnmsg && ctrl.phase in {Selection, MsgOut, MsgIn}
      modifies `ctrl, `task, msb, disk, buffer, cmd, bus
      ensures bus.log.giveUps >= old(bus.log).giveUps && bus.log.(giveUps := 0) == old(bus.log).(giveUps := 0)
      ensures !ctrl.atnmsg && (ok <==> IsCdb(WithoutIcd(stream))) && bus.TakenIs(old(bus.Taken()) + stream, ok)
      ensures ok ==>
                && Ready() && ctrl.phase == Command && ctrl.length == 0 && !bus.initiator.rst
                && WithoutIcd(stream) <= cmd[..] && task == old(task).(job := NoJob)
      ensures !ok ==>
                && Valid() && cmd[..] == old(cmd[..])
                && ctrl.phase == (if bus.initiator.rst then BusFree else Status)
                && (ctrl.phase == Status ==>
                    ctrl.status == CHECK_CONDITION && disk.statusCode == ABORTED_COMMAND * 0x1_0000)
                && task == Task(NoJob, old(task).written, old(task).failures + 1)
    {
      hide Bus.TakenIs, Bus.Taken, Disk.Valid, Bus.Settled, SectorSize, Flat, Stored, Complete, Sends, Receives, Asks,
          CommandByteCount,
          WithoutIcd;
      task := task.(job := NoJob);
      ctrl := ctrl.(phase := Command, offset := 0, length := 6, blocks := 1);
      ShowPhase(false, true, false);
      var n;
      n, stream := bus.CommandHandShake(buffer);
      NoCdb();
      if n == 0 {
        Error(ScsiError(ABORTED_COMMAND, NO_ADDITIONAL_SENSE_INFORMATION));
        return false, stream;
      }
      ctrl := ctrl.(length := CommandByteCount(buffer[0]));
      if n != ctrl.length {
        Error(ScsiError(ABORTED_COMMAND, NO_ADDITIONAL_SENSE_INFORMATION));
        return false, stream;
      }
      CopyCommand(n);
      ctrl := ctrl.(length := 0, blocks := 0);
      ok := true;
    }

    method CopyCommand(n: nat)
      requires n <= cmd.Length && n <= buffer.Length && buffer != cmd
      modifies cmd
      ensures cmd[..n] == buffer[..n]
    {
      forall i | 0 <= i < n {
        cmd[i] := buffer[i];
      }
    }

    /** Gets the next sector of a READ ready, or reports that it cannot. */
    method SendNextSector()
      requires Ready() && TransferOk(ctrl, bus.target) && ctrl.phase == DataIn && !ctrl.atnmsg && !bus.initiator.rst
      requires task.job.ReadJob? && ctrl.length == 0 && 1 <= ctrl.blocks && SendsNext()
      modifies `ctrl, `task, msb, disk, disk.dcache.Repr, buffer, bus`target
      ensures Valid() && fresh(disk.dcache.Repr - old(disk.dcache.Repr)) && task.job == old(task).job
      ensures if task.failures == old(task).failures
              then ctrl == old(ctrl).(length := Size(), next := old(ctrl).next + 1, offset := 0)
              else task.failures > old(task).failures && ctrl.phase == Status && ctrl.length == 1 && !ctrl.atnmsg
    {
      hide Disk.Valid, Bus.Settled, SectorSize, Kept, Complete, Sends, Asks, Receives;
      var ok, _ := XferIn();
      if !ok {
        Error(ScsiError(ABORTED_COMMAND, NO_ADDITIONAL_SENSE_INFORMATION));
      }
    }

    /** Goes on after everything pending was sent. */
    method SendNext()
      requires Valid() && ctrl.phase in {DataIn, Status, MsgIn} && ctrl.length == 0 && !bus.initiator.rst
      modifies `ctrl, `task, msb, disk, disk.dcache.Repr, buffer, cmd, bus
      ensures Valid() && fresh(disk.dcache.Repr - old(disk.dcache.Repr))
      ensures Progress(ctrl, task, bus.log, old(ctrl), old(task), old(bus.log))
    {
      hide Disk.Valid, Bus.Settled, SectorSize, Flat, Stored, Kept, Asks, Receives, IsCdb, WithoutIcd;
      ctrl := ctrl.(blocks := ctrl.blocks - 1);
      if ctrl.phase == DataIn && ctrl.blocks != 0 {
        SendNextSector();
      } else if ctrl.phase == DataIn {
        EnterStatus();
      } else if ctrl.phase == Status {
        EnterMsgIn(ctrl.message);
      } else if ctrl.atnmsg {
        ctrl := ctrl.(atnmsg := false);
        var _, _ := EnterCommand();
      } else {
        EnterBusFree();
      }
    }

    method Send()
      requires Valid() && ctrl.phase in {DataIn, Status, MsgIn} && !bus.initiator.rst
      modifies `ctrl, `task, msb, disk, disk.dcache.Repr, buffer, cmd, bus
      ensures Valid() && fresh(disk.dcache.Repr - old(disk.dcache.Repr))
      ensures Progress(ctrl, task, bus.log, old(ctrl), old(task), old(bus.log))
    {
      hide Disk.Valid, Bus.Settled, SectorSize, Steady, PhaseOk, Progress;
      if ctrl.length != 0 {
        SendBlock();
      } else {
        SendNext();
      }
    }

    // ---------- receiving ----------

    method ReceiveBlock()
      requires Valid() && ctrl.phase in {DataOut, MsgOut} && ctrl.length != 0
      modifies `ctrl, `task, msb, disk, buffer, bus
      ensures Valid() && task.job == old(task).job && task.failures >= old(task).failures
      ensures bus.log.giveUps >= old(bus.log).giveUps
      ensures if Smooth(task, bus.log, old(task), old(bus.log))
              then
                && ctrl == old(ctrl).(offset := old(ctrl).offset + old(ctrl).length, length := 0)
                && bus.Taken() == old(bus.Taken()) + buffer[old(ctrl).offset..ctrl.offset]
              else ctrl.phase in {BusFree, Status}
                   && (ctrl.phase == Status ==> ctrl.atnmsg == old(ctrl).atnmsg && ctrl.length == 1)
    {
      hide Disk.Valid, Bus.Settled, SectorSize, Kept, Complete, Sends, Receives;
      var n := bus.ReceiveHandShake(buffer, ctrl.offset, ctrl.length);
      if ctrl.phase == DataOut {
        ReceivingKeepsJob(task, ctrl, old(bus.log), bus.log, old(buffer[..]), buffer[..], cmd[..], disk.Store(), Size(),
            n);
      } else {
        KeptWhateverGivesUp(task, old(bus.log), bus.log, cmd[..], disk.Store(), Size());
      }
      if n != ctrl.length {
        Error(ScsiError(ABORTED_COMMAND, NO_ADDITIONAL_SENSE_INFORMATION));
        return;
      }
      ctrl := ctrl.(offset := ctrl.offset + ctrl.length, length := 0);
    }

    /** A sector of a WRITE has been received and counted, but not yet written. */
    ghost predicate ReceivedBlock()
      requires cmd.Length == 16
      reads `task, `ctrl, bus`log, buffer, cmd
    {
      Receives(task.job, task.written, ctrl.(blocks := ctrl.blocks + 1), bus.log, buffer[..], cmd[0], Size())
    }

    /** Hands a received block to the device, and prepares for the next one if there is one. If the device refuses the
        block itself, the status phase is entered at once; if it refuses only the next one, the data out phase goes
        on. */
    method XferOut(more: bool, answer: Answer) returns (ok: bool, ghost refusal: Outcome)
      requires Ready() && ctrl.phase == DataOut && ctrl.length == 0 && !ctrl.atnmsg && !bus.initiator.rst
      requires ReceivedBlock() && more == (ctrl.blocks != 0)
      modifies `ctrl, `task, msb, disk, disk.dcache.Repr, buffer, bus`target
      ensures Ready() && fresh(disk.dcache.Repr - old(disk.dcache.Repr))
      ensures task.job == old(task).job && !ctrl.atnmsg
      ensures ctrl.phase == if refusal.Fail? then Status else DataOut
      ensures task.failures == old(task).failures + if refusal.Fail? then 1 else 0
      ensures ok <==> old(HasDeviceForLun(EffectiveLun())) && refusal.Done?
                      && (cmd[0] in WRITE && more ==> old(disk.Attentive()))
      ensures RefusedAsItShould(old(HasDeviceForLun(EffectiveLun())), old(disk.ready), old(disk.writeProtected), answer,
          refusal)
      ensures ok ==> ctrl.status == old(ctrl).status && ctrl.blocks == old(ctrl).blocks && bus.target == old(bus.target)
      ensures ok && more ==> ctrl.length == Size() && ctrl.offset == 0 && ReceivesData()
      ensures ok && !more ==> JobDone() && ctrl.offset == old(ctrl).offset && ctrl.length == 0
    {
      hide Disk.Valid, Bus.Settled, SectorSize, Sends, Asks;
      refusal := Done;
      if !HasDeviceForLun(EffectiveLun()) {
        return false, refusal;
      }
      if cmd[0] in MODE_SELECT && answer.Refuses? {
        refusal := Fail(answer.error);
        Error(answer.error);
        return false, refusal;
      }
      if cmd[0] in WRITE {
        ok, refusal := WriteBlock(more);
        return;
      }
      ok := true;
    }

    /** When the device refuses a block of data: a WRITE on a disk that is not ready or write protected, or whose file
        cannot be accessed, and MODE SELECT as the device likes; nothing else, and never because of the range. */
    predicate RefusedAsItShould(device: bool, ready: bool, writeProtected: bool, answer: Answer, refusal: Outcome)
      requires cmd.Length == 16
      reads cmd
    {
      if device && cmd[0] in WRITE then
        if !ready then refusal == Fail(ScsiError(NOT_READY, NO_ADDITIONAL_SENSE_INFORMATION))
        else if writeProtected then refusal == Fail(ScsiError(DATA_PROTECT, WRITE_PROTECTED))
        else refusal in {Done, Fail(ScsiError(MEDIUM_ERROR, WRITE_FAULT))}
      else
        refusal == if device && cmd[0] in MODE_SELECT && answer.Refuses? then Fail(answer.error) else Done
    }

    method WriteBlock(more: bool) returns (ok: bool, ghost refusal: Outcome)
      requires Ready() && ctrl.phase == DataOut && ctrl.length == 0 && !ctrl.atnmsg && !bus.initiator.rst
               && cmd[0] in WRITE
      requires ReceivedBlock() && more == (ctrl.blocks != 0)
      modifies `ctrl, `task, msb, disk, disk.dcache.Repr, buffer, bus`target
      ensures Ready() && fresh(disk.dcache.Repr - old(disk.dcache.Repr))
      ensures task.job == old(task).job && !ctrl.atnmsg
      ensures ctrl.phase == if refusal.Fail? then Status else DataOut
      ensures task.failures == old(task).failures + if refusal.Fail? then 1 else 0
      ensures ok <==> refusal.Done? && (more ==> old(disk.Attentive()))
      ensures if !old(disk.ready) then refusal == Fail(ScsiError(NOT_READY, NO_ADDITIONAL_SENSE_INFORMATION))
              else if old(disk.writeProtected) then refusal == Fail(ScsiError(DATA_PROTECT, WRITE_PROTECTED))
              else refusal in {Done, Fail(ScsiError(MEDIUM_ERROR, WRITE_FAULT))}
      ensures disk.Store() == if refusal.Fail? then old(disk.Store())
                              else old(disk.Store()[ctrl.next - 1 := buffer[..Size()]])
      ensures task.written == old(task).written + if refusal.Fail? then 0 else 1
      ensures ok ==> ctrl == old(ctrl).(next := old(ctrl).next + 1, length := if more then Size() else 0,
                                        offset := if more then 0 else old(ctrl).offset)
      ensures ok ==> bus.target == old(bus.target)
      ensures ok && more ==> ReceivesData()
      ensures ok && !more ==> JobDone()
    {
      hide Disk.Valid, Bus.Settled, SectorSize, Kept, Complete, Sends, Receives, Asks;
      disk.HoldsAllBlocks();
      WritingKeepsJob(task, ctrl, bus.log, buffer[..], cmd[..], disk.Store(), Size());
      var r := disk.Write(buffer, ctrl.next - 1);
      refusal := r;
      if r.Fail? {
        Error(r.error);
        return false, refusal;
      }
      task := task.(written := task.written + 1);
      ctrl := ctrl.(next := ctrl.next + 1);
      if more {
        r := disk.WriteCheck(ctrl.next - 1);
        if r.Fail? {
          return false, refusal;
        }
        ctrl := ctrl.(length := Size(), offset := 0);
      }
      ok := true;
    }

    /** MODE SELECT is carried out a second time when its data is complete. */
    method FlushUnit(answer: Answer)
      requires Ready() && ctrl.phase == DataOut && !ctrl.atnmsg && !bus.initiator.rst && JobDone()
      modifies `ctrl, `task, msb, disk, buffer, bus`target
      ensures Ready() && task == old(task).(failures := task.failures) && !ctrl.atnmsg
      ensures if cmd[0] in MODE_SELECT && answer.Refuses?
              then Valid() && ctrl.phase == Status && ctrl.length == 1 && task.failures == old(task).failures + 1
              else ctrl == old(ctrl) && task == old(task)
    {
      hide Disk.Valid, Bus.Settled, SectorSize, Kept, Complete, Sends, Receives;
      if cmd[0] in MODE_SELECT && answer.Refuses? {
        Error(answer.error);
      }
    }

    /** Goes on after a block was received. If the device refuses the block, the bus is freed without a status byte: the
        error has entered the status phase already, and a second one is raised there. If it refuses only the next block,
        there is one error, which is reported. */
    method ReceiveNext(answer: Answer, again: Answer) returns (ghost refusal: Outcome)
      requires Valid() && ctrl.phase == DataOut && ctrl.length == 0 && !bus.initiator.rst
      modifies `ctrl, `task, msb, disk, disk.dcache.Repr, buffer, bus
      ensures Valid() && fresh(disk.dcache.Repr - old(disk.dcache.Repr))
      ensures Progress(ctrl, task, bus.log, old(ctrl), old(task), old(bus.log))
      ensures RefusedAsItShould(old(HasDeviceForLun(EffectiveLun())), old(disk.ready), old(disk.writeProtected), answer,
          refusal)
      ensures refusal.Fail? ==> ctrl.phase == BusFree && task.failures == old(task).failures + 2
      ensures ctrl.phase == BusFree && refusal.Done? ==>
                cmd[0] in MODE_SELECT && again.Refuses? && bus.log.giveUps > old(bus.log).giveUps
      ensures refusal.Done? && (!old(HasDeviceForLun(EffectiveLun()))
                                || (cmd[0] in WRITE && old(ctrl).blocks > 1 && !old(disk.Attentive()))) ==>
                ctrl.phase == Status && ctrl.status == CHECK_CONDITION && task.failures == old(task).failures + 1
      ensures refusal.Done? && old(HasDeviceForLun(EffectiveLun())) && cmd[0] in WRITE
              && (old(ctrl).blocks <= 1 || old(disk.Attentive())) ==>
                task.failures == old(task).failures && ctrl.phase == if old(ctrl).blocks > 1 then DataOut else Status
    {
      hide Disk.Valid, Bus.Settled, SectorSize, Kept, Complete, Sends, Receives, Asks, RefusedAsItShould;
      ctrl := ctrl.(blocks := ctrl.blocks - 1);
      var ok;
      ok, refusal := XferOut(ctrl.blocks != 0, answer);
      if !ok {
        Error(ScsiError(ABORTED_COMMAND, NO_ADDITIONAL_SENSE_INFORMATION));
        return;
      }
      if ctrl.blocks != 0 {
        return;
      }
      EndDataOut(again);
    }

    method EndDataOut(answer: Answer)
      requires Ready() && ctrl.phase == DataOut && !ctrl.atnmsg && !bus.initiator.rst && JobDone()
      modifies `ctrl, `task, msb, disk, buffer, bus
      ensures Valid() && ctrl.phase in {BusFree, Status} && !ctrl.atnmsg
      ensures task.job == old(task).job && task.failures >= old(task).failures
              && bus.log.giveUps >= old(bus.log).giveUps
      ensures cmd[0] in MODE_SELECT && answer.Refuses? ==> task.failures > old(task).failures
      ensures !(cmd[0] in MODE_SELECT && answer.Refuses?) ==>
                && task.failures == old(task).failures
                && ctrl.phase == Status && ctrl.length == 1 && ctrl.status == old(ctrl).status
      ensures ctrl.phase == BusFree ==> bus.log.giveUps > old(bus.log).giveUps
      ensures ctrl.phase == Status ==> ctrl.length <= 1
    {
      hide Disk.Valid, Bus.Settled, SectorSize, Kept, Complete, Sends, Receives;
      FlushUnit(answer);
      if ctrl.phase == Status {
        SendBlock();
      } else {
        EnterStatus();
      }
    }

    // ---------- messages from the initiator ----------

    /** Keeps a message that was received together with ATN; the 257th overwrites the first. */
    method XferMsg(message: byte)
      requires msb.Length == 256 && ctrl.msc < 256
      modifies `ctrl, msb
      ensures if ctrl.atnmsg
              then msb[..] == old(msb[..])[old(ctrl).msc := message]
                && ctrl == old(ctrl).(msc := (old(ctrl).msc + 1) % 256)
              else msb[..] == old(msb[..]) && ctrl == old(ctrl)
    {
      if ctrl.atnmsg {
        msb[ctrl.msc] := message;
        ctrl := ctrl.(msc := (ctrl.msc + 1) % 256);
      }
    }

    /** Obeys the messages received together with ATN, and tells whether to go on to the command. */
    method ObeyMessages() returns (proceed: bool)
      requires Ready() && ctrl.phase == MsgOut && task.job.NoJob?
      modifies `ctrl, buffer, bus`target
      ensures !proceed ==> Valid()
      ensures match Parse(old(msb[..ctrl.msc]), old(ctrl).identifiedLun)
              case FreeTheBus => !proceed && ctrl.phase == BusFree
              case Reject(lun) =>
                && !proceed && buffer[0] == MESSAGE_REJECT
                && ctrl == old(ctrl).(identifiedLun := lun, phase := MsgIn, offset := 0, length := 1, blocks := 1)
              case Proceed(lun) => proceed && ctrl == old(ctrl).(identifiedLun := lun) && bus.target == old(bus.target)
    {
      hide Disk.Valid, Bus.Settled, SectorSize, Kept, Sends, Receives;
      ghost var messages := msb[..ctrl.msc];
      var i := 0;
      while i < ctrl.msc
        invariant Ready() && ctrl == old(ctrl).(identifiedLun := ctrl.identifiedLun) && bus.target == old(bus.target)
        invariant i <= ctrl.msc && messages == msb[..ctrl.msc]
        invariant Parse(messages, old(ctrl).identifiedLun) == Parse(messages[i..], ctrl.identifiedLun)
      {
        var data := msb[i];
        assert messages[i..] == [data] + messages[i + 1..];
        if data in {ABORT, BUS_DEVICE_RESET} {
          EnterBusFree();
          return false;
        }
        if data >= 0x80 {
          ctrl := ctrl.(identifiedLun := data % 0x20);
        }
        if data == EXTENDED_MESSAGE {
          EnterMsgIn(MESSAGE_REJECT);
          return false;
        }
        i := i + 1;
      }
      proceed := true;
    }

    /** Goes on after a message was received. */
    method MessageReceived()
      requires Valid() && ctrl.phase == MsgOut && ctrl.length == 0
      modifies `ctrl, `task, msb, disk, disk.dcache.Repr, buffer, cmd, bus
      ensures Valid() && fresh(disk.dcache.Repr - old(disk.dcache.Repr)) && bus.log.giveUps >= old(bus.log).giveUps
      ensures task.failures >= old(task).failures
      ensures ctrl.phase !in {Selection} && (ctrl.phase == MsgOut <==> old(bus.initiator.atn))
    {
      hide Disk.Valid, Bus.Settled, SectorSize, Flat, Stored, Kept, Asks, Sends, Receives;
      XferMsg(buffer[0]);
      ctrl := ctrl.(message := 0, blocks := 0);
      if bus.initiator.atn {
        ctrl := ctrl.(offset := 0, length := 1, blocks := 1);
        return;
      }
      if ctrl.atnmsg {
        var proceed := ObeyMessages();
        if !proceed {
          return;
        }
      }
      ctrl := ctrl.(atnmsg := false);
      var _, _ := EnterCommand();
    }

    // ---------- selection, and the step ----------

    /** Responds if the initiator selects this target. */
    method Select()
      requires Ready() && ctrl.phase == BusFree && !ctrl.atnmsg
      modifies `ctrl, `task, bus`target
      ensures Valid() && ctrl.phase in {BusFree, Selection}
      ensures ctrl.phase == Selection <==>
                bus.initiator.sel && !(old(bus.target).bsy || bus.initiator.busy) && Selected(bus.initiator.dat)
      ensures if ctrl.phase == BusFree then ctrl == old(ctrl) && task == old(task) else task == old(task).(job := NoJob)
    {
      hide Disk.Valid, Bus.Settled, SectorSize, Complete, Sends, Receives, Stored, Flat, Asks;
      if bus.initiator.sel && !(bus.initiator.busy || bus.target.bsy) && Selected(bus.initiator.dat) {
        task := task.(job := NoJob);
        ctrl := ctrl.(phase := Selection);
        bus.target := bus.target.(bsy := true);
      }
    }

    /** The data bus shows the bit of this target. */
    predicate Selected(dat: byte) {
      dat / PowerOfTwo(targetId) % 2 == 1
    }

    /** Goes on after the initiator has released SEL. */
    method Selecting()
      requires Valid() && ctrl.phase == Selection
      modifies `ctrl, `task, msb, disk, disk.dcache.Repr, buffer, cmd, bus
      ensures Valid() && fresh(disk.dcache.Repr - old(disk.dcache.Repr)) && bus.log.giveUps >= old(bus.log).giveUps
      ensures task.failures >= old(task).failures
    {
      hide Disk.Valid, Bus.Settled, SectorSize, Kept, Complete, Sends, Receives, Asks;
      if !bus.initiator.sel && (bus.initiator.busy || bus.target.bsy) {
        if bus.initiator.atn {
          EnterMsgOut();
        } else {
          var _, _ := EnterCommand();
        }
      }
    }

    method Receive()
      requires Valid() && ctrl.phase in {DataOut, MsgOut} && !bus.initiator.rst
      modifies `ctrl, `task, msb, disk, disk.dcache.Repr, buffer, cmd, bus
      ensures Valid() && fresh(disk.dcache.Repr - old(disk.dcache.Repr)) && bus.log.giveUps >= old(bus.log).giveUps
      ensures task.failures >= old(task).failures
      ensures old(ctrl).phase == DataOut ==> Progress(ctrl, task, bus.log, old(ctrl), old(task), old(bus.log))
    {
      hide Disk.Valid, Bus.Settled, SectorSize, Steady, Complete, Sends, Receives;
      if ctrl.length != 0 {
        ReceiveBlock();
      } else if ctrl.phase == DataOut {
        var answer: Answer, again: Answer := *, *;
        var _ := ReceiveNext(answer, again);
      } else {
        MessageReceived();
      }
    }

    /** The initiator resets the bus. */
    method BeReset()
      requires Ready()
      modifies `ctrl, `task, msb, disk, bus`target
      ensures Valid() && ctrl == INITIAL && bus.target == ALL_OFF
      ensures task == old(task).(failures := old(task).failures + 1)
    {
      hide Disk.Valid, Bus.Settled, SectorSize, Kept, Complete, Sends, Receives;
      Reset();
      bus.Reset();
      task := task.(failures := task.failures + 1);
    }

    /** One step. */
    method Process()
      requires Valid()
      modifies `ctrl, `task, msb, disk, disk.dcache.Repr, buffer, cmd, bus
      ensures Valid() && fresh(disk.dcache.Repr - old(disk.dcache.Repr)) && bus.log.giveUps >= old(bus.log).giveUps
      ensures task.failures >= old(task).failures
      ensures old(ctrl).phase in {DataIn, DataOut, Status, MsgIn} ==>
                Progress(ctrl, task, bus.log, old(ctrl), old(task), old(bus.log))
    {
      hide Disk.Valid, Bus.Settled, SectorSize, Kept, Complete, Sends, Receives;
      bus.Acquire();
      if bus.initiator.rst {
        BeReset();
        return;
      }
      match ctrl.phase
      case BusFree => Select();
      case Selection => Selecting();
      case DataOut => Receive();
      case MsgOut => Receive();
      case DataIn => Send();
      case Status => Send();
      case MsgIn => Send();
    }

    /** Steps until the bus is free, which it is after finitely many steps whatever the initiator does. Without an error
        and without a handshake that gives up, it takes exactly `Rank` steps, and a job in progress is then complete. */
    method RunToBusFree() returns (steps: nat)
      requires Valid() && ctrl.phase in {DataIn, DataOut, Status, MsgIn}
      modifies `ctrl, `task, msb, disk, disk.dcache.Repr, buffer, cmd, bus
      ensures Valid() && ctrl.phase == BusFree && fresh(disk.dcache.Repr - old(disk.dcache.Repr))
      ensures !old(ctrl).atnmsg ==> task.job == old(task).job
      ensures !old(ctrl).atnmsg && old(ctrl).status == GOOD && Smooth(task, bus.log, old(task), old(bus.log)) ==>
                steps == Rank(old(ctrl)) && JobDone()
    {
      hide Disk.Valid, Bus.Settled, SectorSize, Steady, TransferOk, Sends, Receives;
      steps := 0;
      while ctrl.phase != BusFree
        invariant Valid() && fresh(disk.dcache.Repr - old(disk.dcache.Repr))
        invariant ctrl.phase in {BusFree, DataIn, DataOut, Status, MsgIn}
        invariant task.failures >= old(task).failures && bus.log.giveUps >= old(bus.log).giveUps
        invariant !old(ctrl).atnmsg ==> !ctrl.atnmsg && task.job == old(task).job
        invariant !old(ctrl).atnmsg && old(ctrl).status == GOOD && Smooth(task, bus.log, old(task), old(bus.log)) ==>
                    && steps + Rank(ctrl) == Rank(old(ctrl))
                    && if ctrl.phase == BusFree then JobDone() else ctrl.status == GOOD
        decreases ctrl.atnmsg, Rank(ctrl)
      {
        Process();
        steps := steps + 1;
      }
    }
  }

  lemma NothingSent(store: seq<Sector>, start: nat, sent: seq<byte>)
    requires start <= |store|
    ensures Flat(store, start, 0) == [] && sent == sent + Flat(store, start, 0)
  {
  }
}
