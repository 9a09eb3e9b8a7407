/** `log/log.h` in binary mode, as the client of the MPSC ring: records with a header, and
    a flush that reads each record in two steps. */
module LogModel {
  import opened Basics
  import opened MpscModel

  /** The header `log_entry_t`. */
  datatype Entry = Entry(ts: nat, id: nat, size: nat)

  /** Widths in bytes of the fields of the header: 8, 8, 8, or 8, 4, 4 on a 32-bit build. */
  datatype Widths = Widths(ts: nat, word: nat) {
    function Header(): nat { ts + word + word }
  }

  function Pow256(k: nat): nat { if k == 0 then 1 else 256 * Pow256(k - 1) }

  /** The `k` low bytes of `n`, least significant first, as they lie in memory. */
  function Bytes(n: nat, k: nat): (r: seq<Byte>)
    ensures |r| == k
  {
    if k == 0 then [] else [n % 256] + Bytes(n / 256, k - 1)
  }

  function Number(b: seq<Byte>): nat {
    if b == [] then 0 else b[0] + 256 * Number(b[1..])
  }

  lemma {:induction false} NumberOfBytes(n: nat, k: nat)
    requires n < Pow256(k)
    ensures Number(Bytes(n, k)) == n
  {
    if k > 0 {
      NumberOfBytes(n / 256, k - 1);
      assert Bytes(n, k)[1..] == Bytes(n / 256, k - 1);
    }
  }

  function Encode(w: Widths, e: Entry): (r: seq<Byte>)
    ensures |r| == w.Header()
  {
    Bytes(e.ts, w.ts) + Bytes(e.id, w.word) + Bytes(e.size, w.word)
  }

  function Decode(w: Widths, b: seq<Byte>): Entry
    requires |b| == w.Header()
  {
    Entry(Number(b[..w.ts]), Number(b[w.ts..w.ts + w.word]), Number(b[w.ts + w.word..]))
  }

  predicate Fits(w: Widths, e: Entry) {
    e.ts < Pow256(w.ts) && e.id < Pow256(w.word) && e.size < Pow256(w.word)
  }

  /** The header is read back as it was written. */
  lemma DecodeEncode(w: Widths, e: Entry)
    requires Fits(w, e)
    ensures Decode(w, Encode(w, e)) == e
  {
    NumberOfBytes(e.ts, w.ts);
    NumberOfBytes(e.id, w.word);
    NumberOfBytes(e.size, w.word);
    var b := Encode(w, e);
    assert b[..w.ts] == Bytes(e.ts, w.ts);
    assert b[w.ts..w.ts + w.word] == Bytes(e.id, w.word);
    assert b[w.ts + w.word..] == Bytes(e.size, w.word);
  }

  /** A payload that starts with a header which gives the length of the rest. */
  predicate IsRecord(w: Widths, d: seq<Byte>) {
    |d| >= w.Header() && Decode(w, d[..w.Header()]).size == |d| - w.Header()
  }

  /** What `log_write_bin` copies into its reservation is a record. */
  lemma WrittenIsRecord(w: Widths, e: Entry, body: seq<Byte>)
    requires Fits(w, e) && e.size == |body|
    ensures IsRecord(w, Encode(w, e) + body)
    ensures Decode(w, (Encode(w, e) + body)[..w.Header()]) == e && (Encode(w, e) + body)[w.Header()..] == body
  {
    DecodeEncode(w, e);
    assert (Encode(w, e) + body)[..w.Header()] == Encode(w, e);
  }

  // ----- the flush

  /** Where `log_flush_bin` stands: not running, reading a header, or reading the body
      that a header announced. */
  datatype FlushPc = Idle | Header | Body(entry: Entry)

  datatype Record = Record(entry: Entry, body: seq<Byte>)

  datatype LogState = LogState(ring: State, flush: FlushPc, busy: bool, out: seq<Record>)

  datatype LogAction =
    | Write(p: nat, entry: Entry, body: seq<Byte>)  // log_write_bin calls mpsc_acquire
    | Ring(a: Action)                               // any other step of the ring
    | FlushCall                                     // log_flush_bin is called
    | HeaderDone                                    // the first mpsc_read has returned
    | BodyDone                                      // the second mpsc_read has returned
    | NotBusy                                       // the asynchronous output is complete

  predicate LogEnabled(c: Config, w: Widths, l: LogState, a: LogAction)
    requires c.Valid()
  {
    match a
    case Write(p, e, body) =>
      Fits(w, e) && e.size == |body| && e.id == p && w.Header() + |body| <= c.cap &&
      Enabled(c, l.ring, PBegin(p, Encode(w, e) + body))
    case Ring(b) => !b.PBegin? && !b.CBegin? && Enabled(c, l.ring, b)
    case FlushCall => l.flush.Idle? && l.ring.consumer.Rest?
    case HeaderDone => l.flush.Header? && l.ring.consumer.Rest?
    case BodyDone => l.flush.Body? && l.ring.consumer.Rest?
    case NotBusy => true
  }

  /** One turn of the loop starts: the loop is left if the output is busy. */
  function Turn(w: Widths, l: LogState): LogState
    requires l.ring.consumer.Rest?
  {
    if l.busy then l.(flush := Idle)
    else l.(flush := Header, ring := l.ring.(consumer := CLoadWp(w.Header(), false)))
  }

  /** `async` is the mode LOG_MODE_ASYNC. */
  function LogApply(c: Config, w: Widths, async: bool, l: LogState, a: LogAction): LogState
    requires c.Valid() && LogEnabled(c, w, l, a)
  {
    match a
    case Write(p, e, body) => l.(ring := Apply(c, l.ring, PBegin(p, Encode(w, e) + body)))
    case Ring(b) => l.(ring := Apply(c, l.ring, b))
    case FlushCall => Turn(w, l)
    case HeaderDone =>
      var got := l.ring.consumer.got;
      if got == [] then l.(flush := Idle)
      else if |got| == w.Header() then
        var e := Decode(w, got);
        l.(flush := Body(e), ring := l.ring.(consumer := CLoadWp(e.size, false)))
      else l  // mpsc_read returns nothing or all it was asked for
    case BodyDone =>
      Turn(w, l.(out := l.out + [Record(l.flush.entry, l.ring.consumer.got)], busy := async))
    case NotBusy => l.(busy := false)
  }

  ghost predicate LogInit(c: Config, l: LogState) {
    Init(c, l.ring) && l.flush == Idle && l.out == []
  }
}
