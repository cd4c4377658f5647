/**
 * A finished download being saved while its pieces are deleted behind the
 * save. One save reads the file in order (possibly ahead of what it has handed
 * on), peers read any piece at any time, other iterators of the file may report
 * progress of their own, draining may start at any moment, and the worker
 * applies removals late and in any order, or fails to. Every interleaving is a
 * run of the steps below.
 */
module DrainProtocol {
  import opened Bytes
  import opened Ctr
  import opened CipherStore
  import opened ChunkStore
  import BrowserCrypto

  /** What does not change: the ciphertext the torrent carries and how it is cut and keyed. */
  datatype Job = Job(chunkLength: nat, ct: seq<Byte>, aes: BlockCipher, iv: Counter) {
    predicate Valid() {
      chunkLength > 0
    }

    function Count(): nat
      requires Valid()
    {
      PieceCount(|ct|, chunkLength)
    }

    /** The piece that holds byte `p` of the file, where in it that byte lies, and where piece `i` ends. */
    function PieceAt(p: nat): nat
      requires Valid()
    {
      p / chunkLength
    }

    function Within(p: nat): nat
      requires Valid()
    {
      p % chunkLength
    }

    function End(i: nat): nat {
      PieceEnd(i, chunkLength, |ct|)
    }
  }

  /** The save: one iterator reading the file from byte 0. */
  datatype Save = Save(
    readPos: nat,                 // bytes read from the store
    buffered: seq<Byte>,          // read, not yet handed on
    chunks: seq<seq<Byte>>,       // ciphertext chunks handed to the decrypter
    out: seq<seq<Byte>>,          // what the save was given
    failed: bool                  // a read came back with an error
  ) {
    function Offset(): nat {
      |Flatten(chunks)|
    }

    /** After the store has answered a read of the next `len` bytes. */
    function Took(r: Result<seq<Byte>, string>, len: nat): Save {
      if r.Err? then this.(failed := true)
      else this.(readPos := readPos + len, buffered := buffered + r.value)
    }

    /** After the iterator has decrypted and yielded the next `n` bytes. */
    function HandOn(job: Job, n: nat): Save
      requires n <= |buffered|
    {
      var chunk := buffered[..n];
      var plain := BrowserCrypto.Xored(job.aes, job.iv, chunk, Offset());
      this.(buffered := buffered[n..], chunks := chunks + [chunk], out := out + [plain])
    }
  }

  /** The store and its worker. */
  datatype Store = Store(
    progress: Progress,
    files: map<nat, seq<Byte>>,   // piece files on disk
    removing: set<nat>,           // posted for removal, not yet tried
    stuck: set<nat>,              // their removal failed; nothing tries again
    posted: seq<Removal>          // removal messages so far
  ) {
    /** Posting removal messages schedules their pieces. */
    function Post(p: Progress, messages: seq<Removal>): Store {
      this.(progress := p, posted := posted + messages,
            removing := removing + if messages == [] then {} else Range(messages[0].0, messages[0].1))
    }

    /** The store hears that bytes start..end-1 were read, from whichever iterator. */
    function Report(job: Job, start: nat, end: nat): Store
      requires job.Valid()
    {
      var (p, messages) := Consumed(progress, job.chunkLength, |job.ct|, start, end);
      Post(p, messages)
    }

    function Drain(job: Job): Store
      requires job.Valid()
    {
      var (p, messages) := Drained(progress, job.chunkLength, |job.ct|);
      Post(p, messages)
    }

    /** The worker deletes one piece file. */
    function Remove(i: nat): Store {
      this.(files := files - {i}, removing := removing - {i})
    }

    /** The worker tries to delete a piece file and fails, which it does not report. */
    function FailToRemove(i: nat): Store {
      this.(removing := removing - {i}, stuck := stuck + {i})
    }

    /** The worker's answer to a read of part of a piece. */
    function Answer(job: Job, i: nat, from: nat, len: nat): Result<seq<Byte>, string>
      requires job.Valid()
    {
      ReadPiece(if i in files then Some(files[i]) else None, from, Some(len),
                ExpectedLength(i, job.chunkLength, |job.ct|))
    }
  }

  datatype State = State(
    save: Save,
    store: Store,
    served: seq<(nat, seq<Byte>)> // what peers were given, with its file offset
  )

  datatype Action =
    | Fetch(len: nat)                            // the save reads on, within one piece
    | FetchRefused                               // the worker refuses the read, its piece being open for another
    | Yield(n: nat)                              // the iterator decrypts, reports and yields n bytes
    | PeerGet(index: nat, from: nat, len: nat)   // a peer is served
    | StartDraining
    | RemovePiece(index: nat)                    // the worker deletes one posted piece
    | RemovalFails(index: nat)                   // it cannot, and leaves the piece
    | Foreign(start: nat, end: nat)              // some other iterator of the file reports progress

  function Start(job: Job): State
    requires job.Valid()
  {
    State(Save(0, [], [], [], false),
          Store(Progress(false, 0, 0),
                map i | i in Range(0, job.Count()) :: Piece(job.ct, job.chunkLength, i), {}, {}, []),
          [])
  }

  /** Where byte `from` of piece `i` lies in the file. */
  function Place(job: Job, i: nat, from: nat): nat {
    i * job.chunkLength + from
  }

  function Fetched(job: Job, s: State, len: nat): Save
    requires job.Valid()
  {
    var pos := s.save.readPos;
    s.save.Took(s.store.Answer(job, job.PieceAt(pos), job.Within(pos), len), len)
  }

  function Served(job: Job, s: State, i: nat, from: nat, len: nat): seq<(nat, seq<Byte>)>
    requires job.Valid()
  {
    var r := s.store.Answer(job, i, from, len);
    if r.Err? then s.served else s.served + [(Place(job, i, from), r.value)]
  }

  predicate Enabled(job: Job, s: State, a: Action)
    requires job.Valid()
  {
    match a
    case Fetch(len) => CanFetch(job, s.save, len)
    case FetchRefused => !s.save.failed && s.save.readPos < |job.ct|
    case Yield(n) => !s.save.failed && 0 < n <= |s.save.buffered|
    case PeerGet(i, from, len) =>
      i < job.Count() && Place(job, i, from) + len <= job.End(i)
    case StartDraining => true
    case RemovePiece(i) => i in s.store.removing
    case RemovalFails(i) => i in s.store.removing
    case Foreign(start, end) => true
  }

  predicate CanFetch(job: Job, save: Save, len: nat)
    requires job.Valid()
  {
    !save.failed && save.readPos < |job.ct| && len > 0 && save.readPos + len <= job.End(job.PieceAt(save.readPos))
  }

  /** What a step does to the store, the save having handed on `offset` bytes so far. */
  function StoreStep(job: Job, store: Store, offset: nat, a: Action): Store
    requires job.Valid()
  {
    match a
    case Yield(n) => store.Report(job, offset, offset + n)
    case StartDraining => store.Drain(job)
    case RemovePiece(i) => store.Remove(i)
    case RemovalFails(i) => store.FailToRemove(i)
    case Foreign(start, end) => store.Report(job, start, end)
    case _ => store
  }

  function SaveStep(job: Job, s: State, a: Action): Save
    requires job.Valid() && (a.Yield? ==> a.n <= |s.save.buffered|)
  {
    match a
    case Fetch(len) => Fetched(job, s, len)
    case FetchRefused => s.save.(failed := true)
    case Yield(n) => s.save.HandOn(job, n)
    case _ => s.save
  }

  function Step(job: Job, s: State, a: Action): State
    requires job.Valid() && Enabled(job, s, a)
  {
    State(SaveStep(job, s, a),
          StoreStep(job, s.store, s.save.Offset(), a),
          if a.PeerGet? then Served(job, s, a.index, a.from, a.len) else s.served)
  }

  /** Every step was possible when it was taken. */
  predicate Run(job: Job, actions: seq<Action>)
    requires job.Valid()
  {
    actions == []
    || (var init, a := actions[..|actions| - 1], actions[|actions| - 1];
        Run(job, init) && Enabled(job, After(job, init), a))
  }

  function After(job: Job, actions: seq<Action>): State
    requires job.Valid()
  {
    if actions == [] then Start(job)
    else
      var s := After(job, actions[..|actions| - 1]);
      var a := actions[|actions| - 1];
      if Enabled(job, s, a) then Step(job, s, a) else s
  }

  lemma AfterStep(job: Job, actions: seq<Action>, a: Action)
    requires job.Valid() && Enabled(job, After(job, actions), a)
    ensures After(job, actions + [a]) == Step(job, After(job, actions), a)
    ensures Run(job, actions) ==> Run(job, actions + [a])
  {
    assert (actions + [a])[..|actions|] == actions;
  }

  /** Removal messages follow on from each other, from piece 0 up to `upTo`. */
  predicate Consecutive(posted: seq<Removal>, upTo: nat) {
    if posted == [] then upTo == 0
    else
      var last := posted[|posted| - 1];
      last.0 < last.1 == upTo && Consecutive(posted[..|posted| - 1], last.0)
  }

  // --- what every run keeps ------------------------------------------------------

  ghost predicate SaveInv(job: Job, save: Save) {
    && save.Offset() <= save.readPos <= |job.ct|
    && (save.failed ==> save.readPos < |job.ct|)
    && Flatten(save.chunks) == job.ct[..save.Offset()]
    && save.buffered == job.ct[save.Offset()..save.readPos]
    && save.out == BrowserCrypto.XoredAll(job.aes, job.iv, 0, save.chunks)
  }

  ghost predicate StoreInv(job: Job, store: Store)
    requires job.Valid()
  {
    && CursorInv(job, store.progress)
    && Consecutive(store.posted, store.progress.reapedUpTo)
    && Accounted(store, store.progress.reapedUpTo, job.Count())
    && Whole(job, store.files)
  }

  /** Everything behind the cursor has been posted, if draining, and nothing else. */
  ghost predicate CursorInv(job: Job, p: Progress)
    requires job.Valid()
  {
    p.consumed <= |job.ct| && p.reapedUpTo == if p.draining then Behind(p.consumed, job.chunkLength, |job.ct|) else 0
  }

  /** The pieces on disk are those not posted, not yet tried, or not removable. */
  ghost predicate Accounted(store: Store, reaped: nat, count: nat) {
    && reaped <= count
    && store.removing !! store.stuck
    && (forall i :: i in store.removing || i in store.stuck ==> i < reaped)
    && (forall i :: i in store.files <==> i < count && (i >= reaped || i in store.removing || i in store.stuck))
  }

  ghost predicate Whole(job: Job, files: map<nat, seq<Byte>>)
    requires job.Valid()
  {
    forall i :: i in files ==> files[i] == Piece(job.ct, job.chunkLength, i)
  }

  ghost predicate PeerInv(job: Job, served: seq<(nat, seq<Byte>)>) {
    forall k :: 0 <= k < |served| ==>
      served[k].0 + |served[k].1| <= |job.ct|
      && served[k].1 == job.ct[served[k].0..served[k].0 + |served[k].1|]
  }

  /** What every run keeps, whoever else reports progress. */
  ghost predicate Inv(job: Job, s: State)
    requires job.Valid()
  {
    && SaveInv(job, s.save)
    && StoreInv(job, s.store) && s.save.Offset() <= s.store.progress.consumed
    && PeerInv(job, s.served)
  }

  lemma StartSaves(job: Job)
    ensures SaveInv(job, Save(0, [], [], [], false)) && Save(0, [], [], [], false).Offset() == 0
  {}

  lemma StartStores(job: Job)
    requires job.Valid()
    ensures StoreInv(job, Start(job).store)
  {
    assert Accounted(Start(job).store, 0, job.Count()) && Whole(job, Start(job).store.files);
  }

  lemma StartInv(job: Job)
    requires job.Valid()
    ensures Inv(job, Start(job))
  {
    StartSaves(job);
    StartStores(job);
  }

  /** A read inside one piece gets exactly its stretch of the file if the piece is on disk, or an error. */
  lemma ReadExact(job: Job, store: Store, i: nat, from: nat, len: nat)
    requires job.Valid() && Whole(job, store.files)
    requires i < job.Count() && Place(job, i, from) + len <= job.End(i)
    ensures var at, r := Place(job, i, from), store.Answer(job, i, from, len);
            at + len <= |job.ct| && (r.Ok? <==> i in store.files) && (r.Ok? ==> r.value == job.ct[at..at + len])
  {
    StretchOfPiece(job, i, from, len);
    if i in store.files {
      ExpectedLengthExact(job.ct, job.chunkLength, i);
      ReadPieceExact(Piece(job.ct, job.chunkLength, i), from, len);
    }
  }

  lemma StretchOfPiece(job: Job, i: nat, from: nat, len: nat)
    requires job.Valid() && i < job.Count()
    requires Place(job, i, from) + len <= job.End(i)
    ensures var piece, at := Piece(job.ct, job.chunkLength, i), Place(job, i, from);
            at + len <= |job.ct| && from + len <= |piece| && piece[from..from + len] == job.ct[at..at + len]
  {
    PieceLength(job.ct, job.chunkLength, i);
    SliceOfSlice(job.ct, i * job.chunkLength, job.End(i), from, len);
  }

  lemma SliceOfSlice(data: seq<Byte>, start: nat, end: nat, from: nat, len: nat)
    requires start + from + len <= end <= |data|
    ensures data[start..end][from..from + len] == data[start + from..start + from + len]
  {
    var part, whole := data[start..end][from..from + len], data[start + from..start + from + len];
    assert forall k :: 0 <= k < len ==> part[k] == whole[k];
  }

  lemma InsidePiece(job: Job, p: nat)
    requires job.Valid() && p < |job.ct|
    ensures p == Place(job, job.PieceAt(p), job.Within(p))
  {
    var i, from := DivMod(p, job.chunkLength);
  }

  lemma NotBehind(offset: nat, p: nat, chunkLength: nat, length: nat)
    requires chunkLength > 0 && offset <= p < length
    ensures Behind(offset, chunkLength, length) <= p / chunkLength < PieceCount(length, chunkLength)
  {
    DivMonotone(offset, p, chunkLength);
    DivMonotone(p + chunkLength, length + chunkLength - 1, chunkLength);
    DivNext(p, chunkLength);
  }

  /** The save's next read gets the bytes that come next, or fails because its piece is gone. */
  lemma FetchReads(job: Job, s: State, len: nat)
    requires job.Valid() && Inv(job, s) && CanFetch(job, s.save, len)
    ensures s.save.readPos + len <= |job.ct|
    ensures Fetched(job, s, len)
         == if job.PieceAt(s.save.readPos) !in s.store.files then s.save.(failed := true)
            else s.save.(readPos := s.save.readPos + len,
                         buffered := s.save.buffered + job.ct[s.save.readPos..s.save.readPos + len])
  {
    var pos := s.save.readPos;
    NotBehind(pos, pos, job.chunkLength, |job.ct|);
    InsidePiece(job, pos);
    ReadExact(job, s.store, job.PieceAt(pos), job.Within(pos), len);
  }

  lemma FetchKeeps(job: Job, s: State, len: nat)
    requires job.Valid() && Inv(job, s) && CanFetch(job, s.save, len)
    ensures SaveInv(job, Fetched(job, s, len)) && Fetched(job, s, len).Offset() == s.save.Offset()
  {
    var pos := s.save.readPos;
    NotBehind(pos, pos, job.chunkLength, |job.ct|);
    InsidePiece(job, pos);
    ReadExact(job, s.store, job.PieceAt(pos), job.Within(pos), len);
    TookKeeps(job, s.save, s.store.Answer(job, job.PieceAt(pos), job.Within(pos), len), len);
  }

  lemma TookKeeps(job: Job, save: Save, r: Result<seq<Byte>, string>, len: nat)
    requires SaveInv(job, save) && !save.failed && 0 < len && save.readPos + len <= |job.ct|
    requires r.Ok? ==> r.value == job.ct[save.readPos..save.readPos + len]
    ensures SaveInv(job, save.Took(r, len)) && save.Took(r, len).Offset() == save.Offset()
  {
    SliceJoin(job.ct, save.Offset(), save.readPos, save.readPos + len);
  }

  lemma SliceJoin(data: seq<Byte>, from: nat, mid: nat, to: nat)
    requires from <= mid <= to <= |data|
    ensures data[from..mid] + data[mid..to] == data[from..to]
  {}

  /** Posting what the store decided keeps the books straight. */
  lemma ReapedKeeps(job: Job, store: Store, p: Progress)
    requires job.Valid() && Accounted(store, p.reapedUpTo, job.Count()) && Whole(job, store.files)
    requires Consecutive(store.posted, p.reapedUpTo)
    requires p.consumed <= |job.ct| && p.reapedUpTo <= Behind(p.consumed, job.chunkLength, |job.ct|)
    requires !p.draining ==> p.reapedUpTo == 0
    ensures var (p', messages) := Reaped(p, job.chunkLength, |job.ct|);
            StoreInv(job, store.Post(p', messages))
  {
    BehindBounded(p.consumed, job.chunkLength, |job.ct|);
    var (p', messages) := Reaped(p, job.chunkLength, |job.ct|);
    var store' := store.Post(p', messages);
    if messages == [] {
      assert store'.posted == store.posted && store'.removing == store.removing;
    } else {
      assert store'.posted[..|store.posted|] == store.posted;
      PostedAccounted(store, store', p.reapedUpTo, p'.reapedUpTo, job.Count());
    }
  }

  lemma PostedAccounted(store: Store, store': Store, from: nat, upTo: nat, count: nat)
    requires Accounted(store, from, count) && from <= upTo <= count
    requires store'.files == store.files && store'.stuck == store.stuck
    requires store'.removing == store.removing + Range(from, upTo)
    ensures Accounted(store', upTo, count)
  {}

  /** Handing on a chunk keeps the save's own books. */
  lemma HandOnKeeps(job: Job, save: Save, n: nat)
    requires SaveInv(job, save) && 0 < n <= |save.buffered|
    ensures save.HandOn(job, n).Offset() == save.Offset() + n && SaveInv(job, save.HandOn(job, n))
  {
    var chunk := save.buffered[..n];
    FlattenAppend(save.chunks, chunk);
    SliceCut(job.ct, save.Offset(), save.Offset() + n, save.readPos);
    XoredAllAppend(job, save.chunks, chunk);
  }

  lemma SliceCut(data: seq<Byte>, from: nat, mid: nat, to: nat)
    requires from <= mid <= to <= |data|
    ensures data[from..to][..mid - from] == data[from..mid] && data[from..to][mid - from..] == data[mid..to]
    ensures data[..from] + data[from..mid] == data[..mid]
  {}

  lemma XoredAllAppend(job: Job, chunks: seq<seq<Byte>>, chunk: seq<Byte>)
    ensures BrowserCrypto.XoredAll(job.aes, job.iv, 0, chunks + [chunk])
         == BrowserCrypto.XoredAll(job.aes, job.iv, 0, chunks)
            + [BrowserCrypto.Xored(job.aes, job.iv, chunk, |Flatten(chunks)|)]
  {
    assert (chunks + [chunk])[..|chunks|] == chunks;
  }

  /** A report moves what the store has heard of as the cursor does. */
  lemma ReportKeeps(job: Job, store: Store, start: nat, end: nat)
    requires job.Valid() && StoreInv(job, store)
    ensures var store' := store.Report(job, start, end);
            StoreInv(job, store')
            && store'.progress.draining == store.progress.draining
            && store'.progress.consumed == Advanced(store.progress.consumed, |job.ct|, start, end)
                                        >= store.progress.consumed
  {
    var consumed := store.progress.consumed;
    var now := Advanced(consumed, |job.ct|, start, end);
    BehindMonotone(consumed, now, job.chunkLength, |job.ct|);
    ReapedKeeps(job, store, store.progress.(consumed := now));
  }

  /** The save's own report always reaches the cursor, wherever other reports have taken that. */
  lemma OwnAdvance(consumed: nat, length: nat, offset: nat, n: nat)
    requires offset <= consumed && offset + n <= length
    ensures offset + n <= Advanced(consumed, length, offset, offset + n)
  {}

  lemma DrainKeeps(job: Job, store: Store)
    requires job.Valid() && StoreInv(job, store)
    ensures var store' := store.Drain(job);
            StoreInv(job, store') && store'.progress.draining && store'.progress.consumed == store.progress.consumed
  {
    ReapedKeeps(job, store, store.progress.(draining := true));
  }

  lemma RemoveKeeps(job: Job, store: Store, i: nat)
    requires job.Valid() && StoreInv(job, store) && i in store.removing
    ensures StoreInv(job, store.Remove(i)) && StoreInv(job, store.FailToRemove(i))
  {
    RemovedAccounted(store, store.progress.reapedUpTo, job.Count(), i);
  }

  lemma RemovedAccounted(store: Store, reaped: nat, count: nat, i: nat)
    requires Accounted(store, reaped, count) && i in store.removing
    ensures Accounted(store.Remove(i), reaped, count) && Accounted(store.FailToRemove(i), reaped, count)
  {}

  /** A peer gets true bytes, or nothing. */
  lemma ServedKeeps(job: Job, s: State, i: nat, from: nat, len: nat)
    requires job.Valid() && Inv(job, s) && i < job.Count()
    requires Place(job, i, from) + len <= job.End(i)
    ensures PeerInv(job, Served(job, s, i, from, len))
  {
    ReadExact(job, s.store, i, from, len);
    var r := s.store.Answer(job, i, from, len);
    if r.Ok? {
      ServedTruly(job, s.served, Place(job, i, from), r.value);
    }
  }

  /** A peer gets the bytes it asked for exactly while the piece is on disk. */
  lemma ServedExactly(job: Job, s: State, i: nat, from: nat, len: nat)
    requires job.Valid() && Inv(job, s) && i < job.Count()
    requires Place(job, i, from) + len <= job.End(i)
    ensures var at := i * job.chunkLength + from;
            at + len <= |job.ct|
            && Served(job, s, i, from, len)
               == if i in s.store.files then s.served + [(at, job.ct[at..at + len])] else s.served
  {
    ReadExact(job, s.store, i, from, len);
  }

  lemma ServedTruly(job: Job, served: seq<(nat, seq<Byte>)>, at: nat, bytes: seq<Byte>)
    requires PeerInv(job, served) && at + |bytes| <= |job.ct| && bytes == job.ct[at..at + |bytes|]
    ensures PeerInv(job, served + [(at, bytes)])
  {}

  /** How far a step takes the save's output. */
  function Yielded(a: Action): nat {
    if a.Yield? then a.n else 0
  }

  lemma StepKeepsSave(job: Job, s: State, a: Action)
    requires job.Valid() && Inv(job, s) && Enabled(job, s, a)
    ensures SaveInv(job, Step(job, s, a).save)
    ensures Step(job, s, a).save.Offset() == s.save.Offset() + Yielded(a)
  {
    if a.Fetch? {
      FetchKeeps(job, s, a.len);
    } else if a.Yield? {
      HandOnKeeps(job, s.save, a.n);
    } else if a.FetchRefused? {
      RefusedKeeps(job, s.save);
    }
  }

  lemma RefusedKeeps(job: Job, save: Save)
    requires SaveInv(job, save) && save.readPos < |job.ct|
    ensures SaveInv(job, save.(failed := true)) && save.(failed := true).Offset() == save.Offset()
  {}

  lemma StepReports(job: Job, store: Store, offset: nat, a: Action)
    requires job.Valid() && StoreInv(job, store) && offset <= store.progress.consumed && (a.Yield? || a.Foreign?)
    requires a.Yield? ==> offset + a.n <= |job.ct|
    ensures StoreInv(job, StoreStep(job, store, offset, a))
    ensures StoreStep(job, store, offset, a).progress.consumed >= offset + Yielded(a)
  {
    var (start, end) := if a.Yield? then (offset, offset + a.n) else (a.start, a.end);
    ReportKeeps(job, store, start, end);
    if a.Yield? {
      OwnAdvance(store.progress.consumed, |job.ct|, offset, a.n);
    }
  }

  lemma StepKeepsStore(job: Job, store: Store, offset: nat, a: Action)
    requires job.Valid() && StoreInv(job, store) && offset <= store.progress.consumed
    requires a.Yield? ==> offset + a.n <= |job.ct|
    requires (a.RemovePiece? || a.RemovalFails?) ==> a.index in store.removing
    ensures StoreInv(job, StoreStep(job, store, offset, a))
    ensures StoreStep(job, store, offset, a).progress.consumed >= offset + Yielded(a)
  {
    if a.Yield? || a.Foreign? {
      StepReports(job, store, offset, a);
    } else if a.StartDraining? {
      DrainKeeps(job, store);
    } else if a.RemovePiece? || a.RemovalFails? {
      RemoveKeeps(job, store, a.index);
    }
  }

  lemma StepKeepsPeers(job: Job, s: State, a: Action)
    requires job.Valid() && Inv(job, s) && Enabled(job, s, a)
    ensures PeerInv(job, Step(job, s, a).served)
  {
    if a.PeerGet? {
      ServedKeeps(job, s, a.index, a.from, a.len);
    }
  }

  lemma StepKeeps(job: Job, s: State, a: Action)
    requires job.Valid() && Inv(job, s) && Enabled(job, s, a)
    ensures Inv(job, Step(job, s, a))
  {
    StepKeepsSave(job, s, a);
    StepKeepsStore(job, s.store, s.save.Offset(), a);
    StepKeepsPeers(job, s, a);
  }

  lemma {:induction false} RunKeeps(job: Job, actions: seq<Action>)
    requires job.Valid() && Run(job, actions)
    ensures Inv(job, After(job, actions))
  {
    if actions == [] {
      StartInv(job);
    } else {
      var init := actions[..|actions| - 1];
      RunKeeps(job, init);
      StepKeeps(job, After(job, init), actions[|actions| - 1]);
    }
  }

  // --- the piece the save needs next ---------------------------------------------

  /** Pieces from `i` on are on disk and nothing is going to remove them. */
  ghost predicate Stays(job: Job, store: Store, i: nat)
    requires job.Valid()
  {
    forall j :: i <= j < job.Count() ==> j in store.files && j !in store.removing
  }

  /** Everything the save has still to read stays. */
  ghost predicate Safe(job: Job, s: State)
    requires job.Valid()
  {
    !s.save.failed && (s.save.readPos < |job.ct| ==> Stays(job, s.store, job.PieceAt(s.save.readPos)))
  }

  /** The first piece from `i` on that the store has not yet posted for removal. */
  function FirstUnposted(store: Store, i: nat): nat {
    Max(i, store.progress.reapedUpTo)
  }

  /** The bytes heard of end before piece `FirstUnposted` does, so it is not posted. */
  predicate StopsShort(job: Job, store: Store, i: nat, consumed: nat)
    requires job.Valid()
  {
    FirstUnposted(store, i) >= job.Count()
    || consumed < job.End(FirstUnposted(store, i))
  }

  /**
   * Steps that cannot cost the save a piece it needs. A report is harmless if
   * the store is not draining, if the cursor does not take it for a
   * continuation of the save, or if it ends before the piece the save needs
   * next does; starting to drain, if the cursor itself has got no further
   * than that. A refused read ends the save. All else is harmless.
   */
  predicate Harmless(job: Job, s: State, a: Action)
    requires job.Valid()
  {
    var next, consumed := job.PieceAt(s.save.readPos), s.store.progress.consumed;
    s.save.readPos >= |job.ct|
    || (match a
        case Foreign(start, end) =>
          !s.store.progress.draining || start > consumed || end <= consumed
          || StopsShort(job, s.store, next, Min(end, |job.ct|))
        case StartDraining => s.store.progress.draining || StopsShort(job, s.store, next, consumed)
        case FetchRefused => false
        case _ => true)
  }

  lemma StaysExactly(job: Job, store: Store, i: nat)
    requires job.Valid() && StoreInv(job, store)
    ensures Stays(job, store, i) <==> forall j :: i <= j < store.progress.reapedUpTo ==> j in store.stuck
  {}

  /** New removals spare what the save needs exactly if the cursor stops short of the next unposted piece. */
  lemma PostSparesExactly(job: Job, store: Store, store': Store, i: nat)
    requires job.Valid() && StoreInv(job, store) && StoreInv(job, store') && Stays(job, store, i)
    requires store'.stuck == store.stuck && store'.progress.draining
    requires store'.progress.reapedUpTo >= store.progress.reapedUpTo
    ensures Stays(job, store', i) <==> StopsShort(job, store, i, store'.progress.consumed)
  {
    StaysExactly(job, store, i);
    StaysExactly(job, store', i);
    var f, reaped := FirstUnposted(store, i), store'.progress.reapedUpTo;
    if f < job.Count() {
      BehindExact(store'.progress.consumed, job.chunkLength, |job.ct|, f);
    }
    if f < reaped {
      assert f !in store.stuck;
    }
  }

  lemma ReportSparesExactly(job: Job, store: Store, i: nat, start: nat, end: nat)
    requires job.Valid() && StoreInv(job, store) && Stays(job, store, i)
    ensures Stays(job, store.Report(job, start, end), i)
            <==> !store.progress.draining || start > store.progress.consumed || end <= store.progress.consumed
                 || StopsShort(job, store, i, Min(end, |job.ct|))
  {
    ReportKeeps(job, store, start, end);
    var store' := store.Report(job, start, end);
    var consumed, now := store.progress.consumed, store'.progress.consumed;
    if store.progress.draining {
      BehindMonotone(consumed, now, job.chunkLength, |job.ct|);
      PostSparesExactly(job, store, store', i);
      if now == consumed {
        StoppedShort(job, store, i);
      }
    }
  }

  /** A draining store has posted no piece the cursor has not passed. */
  lemma StoppedShort(job: Job, store: Store, i: nat)
    requires job.Valid() && StoreInv(job, store) && store.progress.draining
    ensures StopsShort(job, store, i, store.progress.consumed)
  {
    var f := FirstUnposted(store, i);
    if f < job.Count() {
      BehindExact(store.progress.consumed, job.chunkLength, |job.ct|, f);
    }
  }

  lemma DrainSparesExactly(job: Job, store: Store, i: nat)
    requires job.Valid() && StoreInv(job, store) && Stays(job, store, i)
    ensures Stays(job, store.Drain(job), i)
            <==> store.progress.draining || StopsShort(job, store, i, store.progress.consumed)
  {
    DrainKeeps(job, store);
    BehindMonotone(0, store.progress.consumed, job.chunkLength, |job.ct|);
    PostSparesExactly(job, store, store.Drain(job), i);
    if store.progress.draining {
      StoppedShort(job, store, i);
    }
  }

  /** The save's own report never costs it a piece it still needs. */
  lemma OwnReportSpares(job: Job, store: Store, offset: nat, n: nat, readPos: nat)
    requires job.Valid() && StoreInv(job, store) && offset + n <= readPos < |job.ct|
    requires Stays(job, store, job.PieceAt(readPos))
    ensures Stays(job, store.Report(job, offset, offset + n), job.PieceAt(readPos))
  {
    var i := job.PieceAt(readPos);
    ReportSparesExactly(job, store, i, offset, offset + n);
    NotBehind(offset + n, readPos, job.chunkLength, |job.ct|);
    var f := FirstUnposted(store, i);
    if f < job.Count() {
      BehindExact(offset + n, job.chunkLength, |job.ct|, f);
    }
  }

  lemma RemoveSpares(job: Job, store: Store, i: nat, gone: nat)
    requires job.Valid() && Stays(job, store, i) && gone in store.removing
    ensures Stays(job, store.Remove(gone), i) && Stays(job, store.FailToRemove(gone), i)
  {}

  lemma FetchSafe(job: Job, s: State, len: nat)
    requires job.Valid() && Inv(job, s) && Safe(job, s) && CanFetch(job, s.save, len)
    ensures Fetched(job, s, len).readPos == s.save.readPos + len && Safe(job, s.(save := Fetched(job, s, len)))
  {
    FetchReads(job, s, len);
    NotBehind(s.save.readPos, s.save.readPos, job.chunkLength, |job.ct|);
    DivMonotone(s.save.readPos, s.save.readPos + len, job.chunkLength);
  }

  /** A step keeps the save safe exactly if it is harmless. */
  lemma StepSafeExactly(job: Job, s: State, a: Action)
    requires job.Valid() && Inv(job, s) && Safe(job, s) && Enabled(job, s, a)
    ensures Safe(job, Step(job, s, a)) <==> Harmless(job, s, a)
  {
    if a.Fetch? {
      FetchSafe(job, s, a.len);
    } else if !a.FetchRefused? {
      SamePlace(job, s, a);
      if s.save.readPos < |job.ct| {
        StoreStepSafeExactly(job, s, a, job.PieceAt(s.save.readPos));
      }
    }
  }

  lemma SamePlace(job: Job, s: State, a: Action)
    requires job.Valid() && Enabled(job, s, a) && !a.Fetch? && !a.FetchRefused?
    ensures Step(job, s, a).save.readPos == s.save.readPos && Step(job, s, a).save.failed == s.save.failed
  {}

  lemma StoreStepSafeExactly(job: Job, s: State, a: Action, next: nat)
    requires job.Valid() && Inv(job, s) && Enabled(job, s, a) && s.save.readPos < |job.ct|
    requires !a.Fetch? && !a.FetchRefused?
    requires next == job.PieceAt(s.save.readPos) && Stays(job, s.store, next)
    ensures Stays(job, Step(job, s, a).store, next) <==> Harmless(job, s, a)
  {
    match a
    case Yield(n) => OwnReportSpares(job, s.store, s.save.Offset(), n, s.save.readPos);
    case PeerGet(_, _, _) =>
    case StartDraining => DrainSparesExactly(job, s.store, next);
    case RemovePiece(i) => RemoveSpares(job, s.store, next, i);
    case RemovalFails(i) => RemoveSpares(job, s.store, next, i);
    case Foreign(start, end) => ReportSparesExactly(job, s.store, next, start, end);
  }

  /** Every step of the run was harmless when it was taken. */
  predicate HarmlessRun(job: Job, actions: seq<Action>)
    requires job.Valid()
  {
    actions == []
    || (var init, a := actions[..|actions| - 1], actions[|actions| - 1];
        HarmlessRun(job, init) && Harmless(job, After(job, init), a))
  }

  lemma StartSafe(job: Job)
    requires job.Valid()
    ensures Safe(job, Start(job))
  {
    StartStores(job);
    StaysExactly(job, Start(job).store, 0);
  }

  lemma {:induction false} HarmlessRunSafe(job: Job, actions: seq<Action>)
    requires job.Valid() && Run(job, actions) && HarmlessRun(job, actions)
    ensures Safe(job, After(job, actions))
  {
    if actions == [] {
      StartSafe(job);
    } else {
      var init := actions[..|actions| - 1];
      RunKeeps(job, init);
      HarmlessRunSafe(job, init);
      StepSafeExactly(job, After(job, init), actions[|actions| - 1]);
    }
  }
}
