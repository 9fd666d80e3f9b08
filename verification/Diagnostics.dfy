/**
 The payload of the cached transform (Cache/lib/CachedTransform.cpp:101-195, 283-336): bytecode, then
 a list of diagnostics with arbitrarily nested notes, then the bytecode's size as a footer.
 */
module Diagnostics {
  import opened Common
  import opened Arithmetic

  /** `Loc` is the source-location attribute; its printer and parser belong to MLIR. */
  datatype Diagnostic<Loc> = Diagnostic(severity: byte, location: Loc, message: bytes, notes: seq<Diagnostic<Loc>>)

  datatype LocationFormat<!Loc> = LocationFormat(render: Loc -> bytes, parse: bytes -> Option<Loc>)

  ghost predicate Faithful<Loc(!new)>(f: LocationFormat<Loc>) {
    forall l: Loc :: f.parse(f.render(l)) == Some(l)
  }

  // ----- integers, little endian -----

  function Pow256(k: nat): (p: nat)
    ensures p >= 1
  {
    if k == 0 then 1 else 256 * Pow256(k - 1)
  }

  const INT_BYTES: nat := 8

  function LittleEndian(n: nat, k: nat): (b: bytes)
    ensures |b| == k
    decreases k, n
  {
    if k == 0 then [] else [(n % 256) as byte] + LittleEndian(n / 256, k - 1)
  }

  function FromLittleEndian(b: bytes): (n: nat)
    ensures n < Pow256(|b|)
  {
    if b == [] then 0 else b[0] as nat + 256 * FromLittleEndian(b[1..])
  }

  lemma {:induction false} LittleEndianRoundTrip(n: nat, k: nat)
    requires n < Pow256(k)
    ensures FromLittleEndian(LittleEndian(n, k)) == n
    decreases k, n
  {
    if k > 0 {
      LittleEndianRoundTrip(n / 256, k - 1);
      assert LittleEndian(n, k)[1..] == LittleEndian(n / 256, k - 1);
    }
  }

  // ----- encoding -----

  function EncodeInt(n: nat): (b: bytes)
    ensures |b| == INT_BYTES
  {
    LittleEndian(n, INT_BYTES)
  }

  /** Size, bytes, and a terminating zero that is not counted in the size. */
  function EncodeString(s: bytes): bytes {
    EncodeInt(|s|) + s + [0]
  }

  function EncodeHeader<Loc>(f: LocationFormat<Loc>, d: Diagnostic<Loc>): bytes {
    [d.severity] + EncodeString(f.render(d.location)) + EncodeString(d.message)
  }

  function EncodeDiagnostic<Loc>(f: LocationFormat<Loc>, d: Diagnostic<Loc>): bytes
    decreases d, 0
  {
    EncodeHeader(f, d) + EncodeList(f, d.notes)
  }

  function EncodeAll<Loc>(f: LocationFormat<Loc>, ds: seq<Diagnostic<Loc>>): bytes
    decreases ds, 0
  {
    if ds == [] then [] else EncodeDiagnostic(f, ds[0]) + EncodeAll(f, ds[1..])
  }

  /** What the encoder appends for a list. */
  function EncodeList<Loc>(f: LocationFormat<Loc>, ds: seq<Diagnostic<Loc>>): bytes
    decreases ds, 1
  {
    EncodeInt(|ds|) + EncodeAll(f, ds)
  }

  /** Every length is a size_t. */
  predicate Sized<Loc>(f: LocationFormat<Loc>, d: Diagnostic<Loc>)
    decreases d, 0
  {
    |f.render(d.location)| < Pow256(INT_BYTES) && |d.message| < Pow256(INT_BYTES) && AllSized(f, d.notes)
  }

  predicate AllSized<Loc>(f: LocationFormat<Loc>, ds: seq<Diagnostic<Loc>>)
    decreases ds, 1
  {
    |ds| < Pow256(INT_BYTES) && forall i | 0 <= i < |ds| :: Sized(f, ds[i])
  }

  // ----- decoding -----

  /**
   `Undefined` is no error of the source: a read outside the buffer has passed the test in front of it,
   and nothing is known from there on.
   */
  datatype Problem =
    | ShortInt
    | ShortString(size: nat)
    | NoDiagnostic
    | BadLocation
    | Undefined

  /** The outcome of a read and where it leaves the cursor. */
  datatype Read<T> =
    | Done(value: T, at: int)
    | Failed(problem: Problem, at: int)

  predicate Astray<T>(r: Read<T>) {
    r.Failed? && r.problem.Undefined?
  }

  /** What the reads below, whose arithmetic is without bounds, keep to. */
  ghost predicate Between<T>(r: Read<T>, from: nat, to: nat) {
    && from <= r.at <= to
    && !Astray(r)
    && (r.Failed? && r.problem.ShortString? ==> r.problem.size < ADDRESSES)
  }

  /** The number of addresses of the machine. */
  const ADDRESSES: nat := Pow256(INT_BYTES)

  function ReadInt(data: bytes, at: nat): (r: Read<nat>)
    requires at <= |data|
    ensures Between(r, at, |data|)
    ensures r.Done? ==> r.at == at + INT_BYTES && r.value < ADDRESSES
  {
    if at + INT_BYTES > |data| then Failed(ShortInt, at)
    else Done(FromLittleEndian(data[at..at + INT_BYTES]), at + INT_BYTES)
  }

  function ReadString(data: bytes, at: nat): (r: Read<bytes>)
    requires at <= |data|
    ensures Between(r, at, |data|)
    ensures r.Done? ==> r.at >= at + INT_BYTES + 1
  {
    match ReadInt(data, at)
    case Failed(p, here) => Failed(p, here)
    case Done(size, here) =>
      if here + size + 1 > |data| then Failed(ShortString(size), here)
      else Done(data[here..here + size], here + size + 1)
  }

  /** Fixed part of a diagnostic: severity, location, message. */
  datatype Header<Loc> = Header(severity: byte, location: Loc, message: bytes)

  function ReadLocation<Loc>(f: LocationFormat<Loc>, data: bytes, at: nat): (r: Read<Loc>)
    requires at <= |data|
    ensures Between(r, at, |data|)
    ensures r.Done? ==> r.at >= at + INT_BYTES + 1
  {
    match ReadString(data, at)
    case Failed(p, here) => Failed(p, here)
    case Done(printed, here) =>
      match f.parse(printed)
      case None => Failed(BadLocation, here)
      case Some(loc) => Done(loc, here)
  }

  function ReadHeader<Loc>(f: LocationFormat<Loc>, data: bytes, at: nat): (r: Read<Header<Loc>>)
    requires at <= |data|
    ensures Between(r, at, |data|)
    ensures r.Done? ==> r.at >= at + 2 * INT_BYTES + 3
  {
    if at == |data| then Failed(NoDiagnostic, at)
    else
      match ReadLocation(f, data, at + 1)
      case Failed(p, here) => Failed(p, here)
      case Done(loc, here) =>
        match ReadString(data, here)
        case Failed(p, there) => Failed(p, there)
        case Done(message, there) => Done(Header(data[at], loc, message), there)
  }

  /** The least size of n diagnostics, each a severity, two empty strings and no notes. */
  function Room(n: nat): nat {
    27 * n
  }

  function DecodeDiagnostic<Loc>(f: LocationFormat<Loc>, data: bytes, at: nat): (r: Read<Diagnostic<Loc>>)
    requires at <= |data|
    ensures Between(r, at, |data|)
    ensures r.Done? ==> r.at >= at + Room(1)
    decreases |data| - at, 0
  {
    match ReadHeader(f, data, at)
    case Failed(p, here) => Failed(p, here)
    case Done(h, here) =>
      match DecodeList(f, data, here)
      case Failed(p, there) => Failed(p, there)
      case Done(notes, there) => Done(Diagnostic(h.severity, h.location, h.message, notes), there)
  }

  /**
   `n` diagnostics from position `at`; every path stays inside the data, and a list that decodes has
   room for its count.
   */
  function DecodeMany<Loc>(f: LocationFormat<Loc>, data: bytes, at: nat, n: nat): (r: Read<seq<Diagnostic<Loc>>>)
    requires at <= |data|
    ensures Between(r, at, |data|)
    ensures r.Done? ==> |r.value| == n && Room(n) <= r.at - at
    decreases |data| - at, 1
  {
    if n == 0 then Done([], at)
    else
      match DecodeDiagnostic(f, data, at)
      case Failed(p, here) => Failed(p, here)
      case Done(d, here) =>
        match DecodeMany(f, data, here, n - 1)
        case Failed(p, end) => Failed(p, end)
        case Done(rest, end) => Done([d] + rest, end)
  }

  function DecodeList<Loc>(f: LocationFormat<Loc>, data: bytes, at: nat): (r: Read<seq<Diagnostic<Loc>>>)
    requires at <= |data|
    ensures Between(r, at, |data|)
    ensures r.Done? ==> INT_BYTES + Room(|r.value|) <= r.at - at
    decreases |data| - at, 2
  {
    match ReadInt(data, at)
    case Failed(p, here) => Failed(p, here)
    case Done(n, here) => DecodeMany(f, data, here, n)
  }

  // ----- round trip -----

  /** `part` stands at position `at` of the data. */
  ghost predicate At(data: bytes, at: nat, part: bytes) {
    at + |part| <= |data| && data[at..at + |part|] == part
  }

  lemma AtSplit(data: bytes, at: nat, a: bytes, b: bytes)
    requires At(data, at, a + b)
    ensures At(data, at, a) && At(data, at + |a|, b)
  {
    var both := data[at..at + |a + b|];
    assert both[..|a|] == a && both[|a|..] == b;
  }

  lemma IntAt(data: bytes, at: nat, n: nat)
    requires n < Pow256(INT_BYTES) && At(data, at, EncodeInt(n))
    ensures ReadInt(data, at) == Done(n, at + INT_BYTES)
  {
    LittleEndianRoundTrip(n, INT_BYTES);
  }

  lemma StringAt(data: bytes, at: nat, s: bytes)
    requires |s| < Pow256(INT_BYTES) && At(data, at, EncodeString(s))
    ensures ReadString(data, at) == Done(s, at + |EncodeString(s)|)
  {
    AtSplit(data, at, EncodeInt(|s|) + s, [0]);
    AtSplit(data, at, EncodeInt(|s|), s);
    IntAt(data, at, |s|);
  }

  lemma HeaderReads<Loc>(f: LocationFormat<Loc>, data: bytes, at: nat, printed: bytes, here: nat,
                         location: Loc, message: bytes, there: nat)
    requires at < |data| && here <= |data| && f.parse(printed) == Some(location)
    requires ReadString(data, at + 1) == Done(printed, here) && ReadString(data, here) == Done(message, there)
    ensures ReadHeader(f, data, at) == Done(Header(data[at], location, message), there)
  {
  }

  lemma StringsAt(data: bytes, at: nat, printed: bytes, message: bytes)
    requires |printed| < Pow256(INT_BYTES) && |message| < Pow256(INT_BYTES)
    requires At(data, at, EncodeString(printed)) && At(data, at + |EncodeString(printed)|, EncodeString(message))
    ensures var here := at + |EncodeString(printed)|;
            && ReadString(data, at) == Done(printed, here)
            && ReadString(data, here) == Done(message, here + |EncodeString(message)|)
  {
    StringAt(data, at, printed);
    StringAt(data, at + |EncodeString(printed)|, message);
  }

  lemma HeaderFrom<Loc>(f: LocationFormat<Loc>, data: bytes, at: nat, printed: bytes, location: Loc, message: bytes)
    requires at < |data| && f.parse(printed) == Some(location)
    requires |printed| < Pow256(INT_BYTES) && |message| < Pow256(INT_BYTES)
    requires At(data, at + 1, EncodeString(printed))
    requires At(data, at + 1 + |EncodeString(printed)|, EncodeString(message))
    ensures ReadHeader(f, data, at)
         == Done(Header(data[at], location, message), at + 1 + |EncodeString(printed)| + |EncodeString(message)|)
  {
    var l, m := |EncodeString(printed)|, |EncodeString(message)|;
    StringsAt(data, at + 1, printed, message);
    HeaderReads(f, data, at, printed, at + 1 + l, location, message, at + 1 + l + m);
  }

  lemma HeaderAt<Loc>(f: LocationFormat<Loc>, data: bytes, at: nat, d: Diagnostic<Loc>, l: bytes, m: bytes)
    requires f.parse(f.render(d.location)) == Some(d.location)
    requires |f.render(d.location)| < Pow256(INT_BYTES) && |d.message| < Pow256(INT_BYTES)
    requires l == EncodeString(f.render(d.location)) && m == EncodeString(d.message)
    requires At(data, at, [d.severity] + l + m)
    ensures ReadHeader(f, data, at) == Done(Header(d.severity, d.location, d.message), at + 1 + |l| + |m|)
  {
    PartsAt(data, at, d.severity, l, m);
    HeaderFrom(f, data, at, f.render(d.location), d.location, d.message);
  }

  lemma PartsAt(data: bytes, at: nat, severity: byte, l: bytes, m: bytes)
    requires At(data, at, [severity] + l + m)
    ensures at < |data| && data[at] == severity && At(data, at + 1, l) && At(data, at + 1 + |l|, m)
  {
    AtSplit(data, at, [severity] + l, m);
    AtSplit(data, at, [severity], l);
    assert data[at..at + 1][0] == severity;
  }

  lemma OneReads<Loc>(f: LocationFormat<Loc>, data: bytes, at: nat, d: Diagnostic<Loc>, here: nat, there: nat)
    requires at <= |data| && here <= |data|
    requires ReadHeader(f, data, at) == Done(Header(d.severity, d.location, d.message), here)
    requires DecodeList(f, data, here) == Done(d.notes, there)
    ensures DecodeDiagnostic(f, data, at) == Done(d, there)
  {
  }

  lemma {:induction false} OneAt<Loc(!new)>(f: LocationFormat<Loc>, data: bytes, at: nat, d: Diagnostic<Loc>)
    requires Faithful(f) && Sized(f, d) && At(data, at, EncodeDiagnostic(f, d))
    ensures DecodeDiagnostic(f, data, at) == Done(d, at + |EncodeDiagnostic(f, d)|)
    decreases d, 0
  {
    AtSplit(data, at, EncodeHeader(f, d), EncodeList(f, d.notes));
    HeaderAt(f, data, at, d, EncodeString(f.render(d.location)), EncodeString(d.message));
    var here := at + |EncodeHeader(f, d)|;
    ListAt(f, data, here, d.notes);
    OneReads(f, data, at, d, here, at + |EncodeDiagnostic(f, d)|);
  }

  lemma ManyCons<Loc>(f: LocationFormat<Loc>, data: bytes, at: nat, d: Diagnostic<Loc>, here: nat,
                      rest: seq<Diagnostic<Loc>>, end: int)
    requires at <= here <= |data|
    requires DecodeDiagnostic(f, data, at) == Done(d, here) && DecodeMany(f, data, here, |rest|) == Done(rest, end)
    ensures DecodeMany(f, data, at, 1 + |rest|) == Done([d] + rest, end)
  {
  }

  lemma ManyAtStep<Loc>(f: LocationFormat<Loc>, data: bytes, at: nat, d: Diagnostic<Loc>, here: nat, rest: seq<Diagnostic<Loc>>)
    requires At(data, at, EncodeAll(f, [d] + rest)) && here == at + |EncodeDiagnostic(f, d)| <= |data|
    requires DecodeDiagnostic(f, data, at) == Done(d, here)
    requires DecodeMany(f, data, here, |rest|) == Done(rest, here + |EncodeAll(f, rest)|)
    ensures DecodeMany(f, data, at, 1 + |rest|) == Done([d] + rest, at + |EncodeAll(f, [d] + rest)|)
  {
    AllAt(f, data, at, d, rest);
    ManyCons(f, data, at, d, here, rest, here + |EncodeAll(f, rest)|);
  }

  lemma {:induction false} ManyAt<Loc(!new)>(f: LocationFormat<Loc>, data: bytes, at: nat, ds: seq<Diagnostic<Loc>>)
    requires Faithful(f) && (forall i | 0 <= i < |ds| :: Sized(f, ds[i])) && At(data, at, EncodeAll(f, ds))
    ensures DecodeMany(f, data, at, |ds|) == Done(ds, at + |EncodeAll(f, ds)|)
    decreases ds, 0
  {
    if ds != [] {
      var d, rest := ds[0], ds[1..];
      assert ds == [d] + rest;
      var here := at + |EncodeDiagnostic(f, d)|;
      AllAt(f, data, at, d, rest);
      OneAt(f, data, at, d);
      ManyAt(f, data, here, rest);
      ManyAtStep(f, data, at, d, here, rest);
    }
  }

  lemma AllAt<Loc>(f: LocationFormat<Loc>, data: bytes, at: nat, d: Diagnostic<Loc>, rest: seq<Diagnostic<Loc>>)
    requires At(data, at, EncodeAll(f, [d] + rest))
    ensures At(data, at, EncodeDiagnostic(f, d)) && At(data, at + |EncodeDiagnostic(f, d)|, EncodeAll(f, rest))
    ensures |EncodeAll(f, [d] + rest)| == |EncodeDiagnostic(f, d)| + |EncodeAll(f, rest)|
  {
    assert ([d] + rest)[1..] == rest;
    AtSplit(data, at, EncodeDiagnostic(f, d), EncodeAll(f, rest));
  }

  /** Wherever an encoded list stands in the data, it decodes to itself and the cursor ends behind it. */
  lemma {:induction false} ListAt<Loc(!new)>(f: LocationFormat<Loc>, data: bytes, at: nat, ds: seq<Diagnostic<Loc>>)
    requires Faithful(f) && AllSized(f, ds) && At(data, at, EncodeList(f, ds))
    ensures DecodeList(f, data, at) == Done(ds, at + |EncodeList(f, ds)|)
    decreases ds, 1
  {
    AtSplit(data, at, EncodeInt(|ds|), EncodeAll(f, ds));
    IntAt(data, at, |ds|);
    ManyAt(f, data, at + INT_BYTES, ds);
  }

  lemma DecodeInvertsEncode<Loc(!new)>(f: LocationFormat<Loc>, before: bytes, ds: seq<Diagnostic<Loc>>, rest: bytes)
    requires Faithful(f) && AllSized(f, ds)
    ensures DecodeList(f, before + EncodeList(f, ds) + rest, |before|) == Done(ds, |before + EncodeList(f, ds)|)
  {
    ListAt(f, before + EncodeList(f, ds) + rest, |before|, ds);
  }

  /** No encoding is a prefix of another one, so encodings can be told apart without a length. */
  lemma EncodingsPrefixFree<Loc(!new)>(f: LocationFormat<Loc>, a: seq<Diagnostic<Loc>>, b: seq<Diagnostic<Loc>>,
                                       x: bytes, y: bytes)
    requires Faithful(f) && AllSized(f, a) && AllSized(f, b)
    requires EncodeList(f, a) + x == EncodeList(f, b) + y
    ensures a == b && x == y
  {
    var data := EncodeList(f, a) + x;
    ListAt(f, data, 0, a);
    ListAt(f, data, 0, b);
    assert x == data[|EncodeList(f, a)|..] == y;
  }

  // ----- what wrapping addresses change -----

  /** `dataIt + count`, as an offset from the start of a buffer that begins at address `base`. */
  function Moved(base: nat, at: nat, count: nat): int {
    (base + at + count) % ADDRESSES - base
  }

  /** `dataIt + count > dataEnd` */
  predicate TooLong(base: nat, at: nat, count: nat, len: nat) {
    Moved(base, at, count) > len
  }

  /** The buffer, its end included, lies inside the address space. */
  predicate Placed(base: nat, len: nat) {
    base + len < ADDRESSES
  }

  /**
   On wrapping addresses the length test agrees with the intended one exactly when the data fits or the
   sum stays inside the address space; any other length passes, and moves the cursor back.
   */
  lemma LengthTestExact(base: nat, at: nat, count: nat, len: nat)
    requires at <= len && Placed(base, len) && count <= ADDRESSES
    ensures (TooLong(base, at, count, len) <==> at + count > len)
       <==> at + count <= len || base + at + count < ADDRESSES
    ensures Moved(base, at, count) == at + count - if base + at + count < ADDRESSES then 0 else ADDRESSES
  {
    var sum := base + at + count;
    if sum < ADDRESSES {
      ModOfSmall(sum, ADDRESSES);
    } else {
      ModShift(sum - ADDRESSES, 1, ADDRESSES);
      ModOfSmall(sum - ADDRESSES, ADDRESSES);
    }
  }

  /** How many bytes a read that was too short wanted. */
  function Wanted(p: Problem): nat {
    match p
    case ShortInt => INT_BYTES
    case ShortString(size) => size + 1
    case _ => 0
  }

  /** A read that was too short, and whose end wraps as an address. */
  predicate EndWraps<T>(base: nat, r: Read<T>) {
    r.Failed? && Wanted(r.problem) > 0 && base + r.at + Wanted(r.problem) >= ADDRESSES
  }

  /** What becomes of an intended outcome on the machine. */
  function OnMachine<T>(base: nat, r: Read<T>): Read<T> {
    if EndWraps(base, r) then Failed(Undefined, r.at + Wanted(r.problem) - ADDRESSES) else r
  }

  /**
   The decoder as written against the decoder as meant, on arbitrary bytes anywhere in memory: they
   agree, no read leaves the buffer and the cursor ends inside it, if and only if the integer or string
   the intended decoder rejects as too short, if there is one, does not wrap.  Otherwise a read outside
   the buffer passes, and the cursor has moved back or stands still; it is in front of the buffer
   unless the rejected length is almost the whole address space.
   */
  lemma MachineExactly<Loc>(f: LocationFormat<Loc>, base: nat, data: bytes, at: nat)
    requires at <= |data| && Placed(base, |data|)
    ensures var meant := DecodeList(f, data, at);
            var got := OnMachine(base, meant);
            && (got == meant <==> !EndWraps(base, meant))
            && (Astray(got) <==> EndWraps(base, meant))
            && (!EndWraps(base, meant) ==> at <= got.at <= |data|)
            && (EndWraps(base, meant) ==> got.at <= meant.at)
            && (EndWraps(base, meant) ==> (got.at < 0 <==> meant.at + Wanted(meant.problem) < ADDRESSES))
  {
  }

  /** Encoded lists are never astray: the round trip holds for the decoder as written. */
  lemma EncodedOnMachine<Loc(!new)>(f: LocationFormat<Loc>, base: nat, data: bytes, at: nat, ds: seq<Diagnostic<Loc>>)
    requires Faithful(f) && AllSized(f, ds) && At(data, at, EncodeList(f, ds))
    ensures OnMachine(base, DecodeList(f, data, at)) == Done(ds, at + |EncodeList(f, ds)|)
  {
    ListAt(f, data, at, ds);
  }

  // ----- a size that wraps -----

  const TORN: nat := 2 * INT_BYTES + 1

  /** A list of one diagnostic that ends after the size of its location. */
  function TornList(severity: byte, size: nat): (b: bytes)
    ensures |b| == TORN
  {
    EncodeInt(1) + [severity] + EncodeInt(size)
  }

  lemma TornDecodes<Loc>(f: LocationFormat<Loc>, data: bytes, size: nat)
    requires |data| == TORN && ReadInt(data, 0) == Done(1, INT_BYTES) && ReadInt(data, INT_BYTES + 1) == Done(size, TORN)
    ensures DecodeList(f, data, 0) == Failed(ShortString(size), TORN)
  {
    assert ReadString(data, INT_BYTES + 1) == Failed(ShortString(size), TORN);
    assert ReadHeader(f, data, INT_BYTES) == Failed(ShortString(size), TORN);
    assert DecodeDiagnostic(f, data, INT_BYTES) == Failed(ShortString(size), TORN);
  }

  /**
   Wherever the buffer lies, every size whose end wraps passes the test as the last thing in the data:
   the string is rejected by the intended decoder and taken by the one as written.
   */
  lemma WrappingSizePasses<Loc>(f: LocationFormat<Loc>, base: nat, severity: byte, size: nat)
    requires size < ADDRESSES && base + TORN + size + 1 >= ADDRESSES
    ensures var data := TornList(severity, size);
            && DecodeList(f, data, 0) == Failed(ShortString(size), TORN)
            && OnMachine(base, DecodeList(f, data, 0)) == Failed(Undefined, TORN + size + 1 - ADDRESSES)
  {
    var data := TornList(severity, size);
    AtSplit(data, 0, EncodeInt(1) + [severity], EncodeInt(size));
    AtSplit(data, 0, EncodeInt(1), [severity]);
    IntAt(data, 0, 1);
    IntAt(data, INT_BYTES + 1, size);
    TornDecodes(f, data, size);
  }

  /** So at every address there is a list that sends the cursor to in front of the buffer. */
  lemma CursorLeavesBuffer<Loc>(f: LocationFormat<Loc>, base: nat, severity: byte)
    requires base > 0
    ensures var data := TornList(severity, ADDRESSES - TORN - 2);
            OnMachine(base, DecodeList(f, data, 0)) == Failed(Undefined, -1)
  {
    WrappingSizePasses(f, base, severity, ADDRESSES - TORN - 2);
  }

  // ----- the payload -----

  /** What `runTransform` leaves in the buffer. */
  function Payload<Loc>(f: LocationFormat<Loc>, bytecode: bytes, ds: seq<Diagnostic<Loc>>): bytes {
    bytecode + EncodeList(f, ds) + EncodeInt(|bytecode|)
  }

  datatype Hit<Loc> =
    | Recovered(bytecode: bytes, diagnostics: seq<Diagnostic<Loc>>)
    | Rejected(problem: Problem)
    | OutOfRange                     // the footer, or the size it holds, does not fit the buffer

  /** The size of the bytecode, read from the end of the buffer. */
  function Footer(buffer: bytes): (size: Option<nat>)
    ensures size.Some? ==> size.value <= |buffer|
  {
    if |buffer| < INT_BYTES then None
    else
      var size := FromLittleEndian(buffer[|buffer| - INT_BYTES..]);
      if size > |buffer| then None else Some(size)
  }

  /** What a hit makes of what the decoder makes of the bytes after the bytecode. */
  function HitOf<Loc>(bytecode: bytes, list: Read<seq<Diagnostic<Loc>>>): Hit<Loc> {
    match list
    case Failed(p, _) => Rejected(p)
    case Done(ds, _) => Recovered(bytecode, ds)
  }

  /** What a cache hit yields for a buffer at address `base`. */
  function CacheHit<Loc>(f: LocationFormat<Loc>, base: nat, buffer: bytes): Hit<Loc> {
    match Footer(buffer)
    case None => OutOfRange
    case Some(size) => HitOf(buffer[..size], OnMachine(base + size, DecodeList(f, buffer[size..], 0)))
  }

  lemma PayloadParts(bytecode: bytes, list: bytes, footer: bytes)
    ensures var p := bytecode + list + footer;
            p[|p| - |footer|..] == footer && p[|bytecode|..] == list + footer && p[..|bytecode|] == bytecode
  {
  }

  /** A hit recovers exactly the bytecode and the diagnostic trees the miss produced, wherever the buffer lies. */
  lemma HitRecoversMiss<Loc(!new)>(f: LocationFormat<Loc>, base: nat, bytecode: bytes, ds: seq<Diagnostic<Loc>>)
    requires Faithful(f) && AllSized(f, ds) && |bytecode| < ADDRESSES
    ensures CacheHit(f, base, Payload(f, bytecode, ds)) == Recovered(bytecode, ds)
  {
    var list, footer := EncodeList(f, ds), EncodeInt(|bytecode|);
    PayloadParts(bytecode, list, footer);
    LittleEndianRoundTrip(|bytecode|, INT_BYTES);
    ListFirst(f, ds, footer);
  }

  lemma ListFirst<Loc(!new)>(f: LocationFormat<Loc>, ds: seq<Diagnostic<Loc>>, rest: bytes)
    requires Faithful(f) && AllSized(f, ds)
    ensures DecodeList(f, EncodeList(f, ds) + rest, 0) == Done(ds, |EncodeList(f, ds)|)
  {
    ListAt(f, EncodeList(f, ds) + rest, 0, ds);
  }

  // ----- the two routines -----

  class Buffer {
    var data: bytes

    constructor ()
      ensures data == []
    {
      data := [];
    }

    method Write(more: bytes)
      modifies this
      ensures data == old(data) + more
    {
      data := data + more;
    }
  }

  method EncodeOne<Loc>(f: LocationFormat<Loc>, d: Diagnostic<Loc>, buf: Buffer)
    modifies buf
    ensures buf.data == old(buf.data) + EncodeDiagnostic(f, d)
    decreases d, 0
  {
    buf.Write([d.severity]);
    buf.Write(EncodeString(f.render(d.location)));
    buf.Write(EncodeString(d.message));
    EncodeDiagnostics(f, d.notes, buf);
  }

  /** `encodeDiagnostics` */
  method EncodeDiagnostics<Loc>(f: LocationFormat<Loc>, ds: seq<Diagnostic<Loc>>, buf: Buffer)
    modifies buf
    ensures buf.data == old(buf.data) + EncodeList(f, ds)
    decreases ds, 1
  {
    ghost var whole := buf.data + EncodeList(f, ds);
    AllStart(f, ds, buf.data);
    buf.Write(EncodeInt(|ds|));
    for i := 0 to |ds|
      invariant whole == buf.data + EncodeAll(f, ds[i..])
    {
      AllStep(f, ds, i, buf.data);
      EncodeOne(f, ds[i], buf);
    }
    AllEnd(f, ds, buf.data);
  }

  lemma AllStart<Loc>(f: LocationFormat<Loc>, ds: seq<Diagnostic<Loc>>, before: bytes)
    ensures before + EncodeList(f, ds) == (before + EncodeInt(|ds|)) + EncodeAll(f, ds[0..])
  {
    assert ds[0..] == ds;
  }

  lemma AllEnd<Loc>(f: LocationFormat<Loc>, ds: seq<Diagnostic<Loc>>, sofar: bytes)
    ensures sofar + EncodeAll(f, ds[|ds|..]) == sofar
  {
  }

  lemma AllStep<Loc>(f: LocationFormat<Loc>, ds: seq<Diagnostic<Loc>>, i: nat, sofar: bytes)
    requires i < |ds|
    ensures sofar + EncodeAll(f, ds[i..]) == (sofar + EncodeDiagnostic(f, ds[i])) + EncodeAll(f, ds[i + 1..])
  {
    assert ds[i..][0] == ds[i] && ds[i..][1..] == ds[i + 1..];
  }

  /** `dataIt`, as an offset from the start of the buffer. */
  class Cursor {
    var at: int

    constructor (start: int)
      ensures at == start
    {
      at := start;
    }
  }

  /** A routine's result and cursor are an outcome. */
  ghost predicate Matches<T>(r: Result<T, Problem>, at: int, outcome: Read<T>) {
    match outcome
    case Done(value, end) => r == Ok(value) && at == end
    case Failed(p, end) => r == Err(p) && at == end
  }

  /** They are an outcome as it is on the machine. */
  ghost predicate Yields<T>(r: Result<T, Problem>, at: int, base: nat, meant: Read<T>) {
    Matches(r, at, OnMachine(base, meant))
  }

  /**
   Result and cursor against the outcome that was meant: they are that outcome, with the cursor in
   bounds, if and only if no end wraps.  Otherwise a read outside the buffer has passed, and the cursor
   has not moved forward; it is in front of the buffer unless the length is almost the address space.
   */
  ghost predicate Settles<T>(r: Result<T, Problem>, at: int, base: nat, meant: Read<T>, from: int, to: int) {
    && (Matches(r, at, meant) <==> !EndWraps(base, meant))
    && (r == Err(Undefined) <==> EndWraps(base, meant))
    && (!EndWraps(base, meant) ==> from <= at <= to)
    && (EndWraps(base, meant) ==> at <= meant.at && (at < 0 <==> meant.at + Wanted(meant.problem) < ADDRESSES))
  }

  lemma YieldsSettles<T>(r: Result<T, Problem>, at: int, base: nat, meant: Read<T>, from: nat, to: nat)
    requires Yields(r, at, base, meant) && Between(meant, from, to)
    ensures Settles(r, at, base, meant, from, to)
  {
  }

  /** `readInt` */
  method NextInt(base: nat, data: bytes, cursor: Cursor) returns (r: Result<nat, Problem>)
    requires 0 <= cursor.at <= |data| && Placed(base, |data|)
    modifies cursor
    ensures Yields(r, cursor.at, base, ReadInt(data, old(cursor.at)))
  {
    var start := cursor.at;
    LengthTestExact(base, start, INT_BYTES, |data|);
    if TooLong(base, start, INT_BYTES, |data|) {
      return Err(ShortInt);
    }
    cursor.at := Moved(base, start, INT_BYTES);
    r := if start + INT_BYTES <= |data| then Ok(FromLittleEndian(data[start..start + INT_BYTES])) else Err(Undefined);
  }

  /** `readString` */
  method NextString(base: nat, data: bytes, cursor: Cursor) returns (r: Result<bytes, Problem>)
    requires 0 <= cursor.at <= |data| && Placed(base, |data|)
    modifies cursor
    ensures Yields(r, cursor.at, base, ReadString(data, old(cursor.at)))
  {
    var size := NextInt(base, data, cursor);
    if size.Err? {
      return Err(size.error);
    }
    var start := cursor.at;
    LengthTestExact(base, start, size.value + 1, |data|);
    if TooLong(base, start, size.value + 1, |data|) {
      return Err(ShortString(size.value));
    }
    cursor.at := Moved(base, start, size.value + 1);
    r := if start + size.value + 1 <= |data| then Ok(data[start..start + size.value]) else Err(Undefined);
  }

  /** A location, from its printed form. */
  method NextLocation<Loc>(f: LocationFormat<Loc>, base: nat, data: bytes, cursor: Cursor) returns (r: Result<Loc, Problem>)
    requires 0 <= cursor.at <= |data| && Placed(base, |data|)
    modifies cursor
    ensures Yields(r, cursor.at, base, ReadLocation(f, data, old(cursor.at)))
  {
    var printed := NextString(base, data, cursor);
    if printed.Err? {
      return Err(printed.error);
    }
    var loc := f.parse(printed.value);
    r := if loc == None then Err(BadLocation) else Ok(loc.value);
  }

  /** A part that fails decides the whole. */
  lemma PartFails<A, B>(r: Result<A, Problem>, at: int, base: nat, part: Read<A>, whole: Read<B>)
    requires r.Err? && Yields(r, at, base, part)
    requires part.Failed? ==> whole == Failed(part.problem, part.at)
    ensures Yields(Err(r.error), at, base, whole)
  {
  }

  lemma HeaderSteps<Loc>(f: LocationFormat<Loc>, data: bytes, at: nat)
    requires at < |data|
    ensures var loc, header := ReadLocation(f, data, at + 1), ReadHeader(f, data, at);
            if loc.Failed? then header == Failed(loc.problem, loc.at)
            else
              var message := ReadString(data, loc.at);
              header == if message.Failed? then Failed(message.problem, message.at)
                        else Done(Header(data[at], loc.value, message.value), message.at)
  {
  }

  /** Severity, location and message of one diagnostic. */
  method NextHeader<Loc>(f: LocationFormat<Loc>, base: nat, data: bytes, cursor: Cursor)
    returns (r: Result<Header<Loc>, Problem>)
    requires 0 <= cursor.at <= |data| && Placed(base, |data|)
    modifies cursor
    ensures Yields(r, cursor.at, base, ReadHeader(f, data, old(cursor.at)))
  {
    ghost var start, whole := cursor.at, ReadHeader(f, data, cursor.at);
    if cursor.at == |data| {
      return Err(NoDiagnostic);
    }
    HeaderSteps(f, data, start);
    var severity := data[cursor.at];
    cursor.at := cursor.at + 1;
    var loc := NextLocation(f, base, data, cursor);
    if loc.Err? {
      PartFails(loc, cursor.at, base, ReadLocation(f, data, start + 1), whole);
      return Err(loc.error);
    }
    ghost var here := cursor.at;
    var message := NextString(base, data, cursor);
    if message.Err? {
      PartFails(message, cursor.at, base, ReadString(data, here), whole);
      return Err(message.error);
    }
    r := Ok(Header(severity, loc.value, message.value));
  }

  /** The body of the loop: one diagnostic with its notes. */
  method DecodeOne<Loc>(f: LocationFormat<Loc>, base: nat, data: bytes, cursor: Cursor)
    returns (r: Result<Diagnostic<Loc>, Problem>)
    requires 0 <= cursor.at <= |data| && Placed(base, |data|)
    modifies cursor
    ensures Yields(r, cursor.at, base, DecodeDiagnostic(f, data, old(cursor.at)))
    decreases |data| - cursor.at, 0
  {
    var header := NextHeader(f, base, data, cursor);
    if header.Err? {
      return Err(header.error);
    }
    var notes := DecodeDiagnostics(f, base, data, cursor);
    match notes
    case Err(p) => r := Err(p);
    case Ok(ns) => r := Ok(Diagnostic(header.value.severity, header.value.location, header.value.message, ns));
  }

  /** The loop: as many diagnostics as the count says are pushed onto the result. */
  method DecodeLoop<Loc>(f: LocationFormat<Loc>, base: nat, data: bytes, cursor: Cursor, count: nat)
    returns (r: Result<seq<Diagnostic<Loc>>, Problem>)
    requires 0 <= cursor.at <= |data| && Placed(base, |data|)
    modifies cursor
    ensures Yields(r, cursor.at, base, DecodeMany(f, data, old(cursor.at), count))
    decreases |data| - cursor.at, 1
  {
    ghost var start, whole := cursor.at, DecodeMany(f, data, cursor.at, count);
    var diagnostics: seq<Diagnostic<Loc>> := [];
    var i := 0;
    ContinuesAtStart(whole);
    while i < count
      invariant 0 <= i <= count && start <= cursor.at <= |data|
      invariant Continues(whole, diagnostics, DecodeMany(f, data, cursor.at, count - i))
      decreases count - i
    {
      ghost var here, rest := cursor.at, DecodeMany(f, data, cursor.at, count - i);
      var next := DecodeOne(f, base, data, cursor);
      if next.Err? {
        NextFails(f, base, data, here, count - i, whole, diagnostics, next, cursor.at);
        return Err(next.error);
      }
      i := i + 1;
      ContinuesStep(whole, diagnostics, rest, next.value, DecodeMany(f, data, cursor.at, count - i));
      diagnostics := diagnostics + [next.value];
    }
    ContinuesAtEnd(whole, diagnostics, cursor.at);
    r := Ok(diagnostics);
  }

  /** `decodeDiagnostics`: advances the shared cursor over a counted list. */
  method DecodeDiagnostics<Loc>(f: LocationFormat<Loc>, base: nat, data: bytes, cursor: Cursor)
    returns (r: Result<seq<Diagnostic<Loc>>, Problem>)
    requires 0 <= cursor.at <= |data| && Placed(base, |data|)
    modifies cursor
    ensures Yields(r, cursor.at, base, DecodeList(f, data, old(cursor.at)))
    ensures Settles(r, cursor.at, base, DecodeList(f, data, old(cursor.at)), old(cursor.at), |data|)
    decreases |data| - cursor.at, 2
  {
    ghost var start, whole := cursor.at, DecodeList(f, data, cursor.at);
    var count := NextInt(base, data, cursor);
    if count.Err? {
      r := Err(count.error);
    } else {
      r := DecodeLoop(f, base, data, cursor, count.value);
    }
    YieldsSettles(r, cursor.at, base, whole, start, |data|);
  }

  /** `onCacheHit`: footer first, then the diagnostics after the bytecode. */
  method OnCacheHit<Loc>(f: LocationFormat<Loc>, base: nat, buffer: bytes) returns (hit: Hit<Loc>)
    requires Placed(base, |buffer|)
    ensures hit == CacheHit(f, base, buffer)
  {
    var footer := Footer(buffer);
    match footer
    case None => hit := OutOfRange;
    case Some(size) =>
      var cursor := new Cursor(0);
      var list := DecodeDiagnostics(f, base + size, buffer[size..], cursor);
      match list
      case Err(p) => hit := Rejected(p);
      case Ok(ds) => hit := Recovered(buffer[..size], ds);
  }

  /** The whole result is what has been pushed followed by what the rest decodes to. */
  ghost predicate Continues<Loc>(whole: Read<seq<Diagnostic<Loc>>>, sofar: seq<Diagnostic<Loc>>,
                                 rest: Read<seq<Diagnostic<Loc>>>)
  {
    match rest
    case Done(ds, end) => whole == Done(sofar + ds, end)
    case Failed(p, end) => whole == Failed(p, end)
  }

  /** If the next diagnostic fails, so does the whole list. */
  lemma NextFails<Loc>(f: LocationFormat<Loc>, base: nat, data: bytes, at: nat, n: nat, whole: Read<seq<Diagnostic<Loc>>>,
                       sofar: seq<Diagnostic<Loc>>, next: Result<Diagnostic<Loc>, Problem>, end: int)
    requires at <= |data| && n > 0 && next.Err? && Continues(whole, sofar, DecodeMany(f, data, at, n))
    requires Yields(next, end, base, DecodeDiagnostic(f, data, at))
    ensures Yields(Err(next.error), end, base, whole)
  {
  }

  lemma ContinuesAtEnd<Loc>(whole: Read<seq<Diagnostic<Loc>>>, sofar: seq<Diagnostic<Loc>>, at: int)
    requires Continues(whole, sofar, Done([], at))
    ensures whole == Done(sofar, at)
  {
    assert sofar + [] == sofar;
  }

  lemma ContinuesAtStart<Loc>(whole: Read<seq<Diagnostic<Loc>>>)
    ensures Continues(whole, [], whole)
  {
    if whole.Done? {
      assert [] + whole.value == whole.value;
    }
  }

  lemma ContinuesStep<Loc>(whole: Read<seq<Diagnostic<Loc>>>, sofar: seq<Diagnostic<Loc>>,
                           rest: Read<seq<Diagnostic<Loc>>>, d: Diagnostic<Loc>, next: Read<seq<Diagnostic<Loc>>>)
    requires Continues(whole, sofar, rest)
    requires match next
             case Done(ds, end) => rest == Done([d] + ds, end)
             case Failed(p, end) => rest == Failed(p, end)
    ensures Continues(whole, sofar + [d], next)
  {
    if next.Done? {
      assert sofar + ([d] + next.value) == sofar + [d] + next.value;
    }
  }
}
