/**
 The byte format of cached diagnostics (Cache/lib/CachedTransform.cpp:101-195, 283-336), stated as what
 stands where, apart from the routines that write and read it.
 */
module DiagnosticLayout {
  import opened Common
  import opened Diagnostics

  /** Who the layout is for: a writer follows it to the byte, a reader takes some liberties. */
  datatype Role = Writer | Reader

  /** Eight bytes spell the number, the lowest first. */
  predicate IsInt(data: bytes, at: nat, n: nat) {
    && at + 8 <= |data|
    && n == data[at] as nat + 0x100 * data[at + 1] as nat + 0x1_0000 * data[at + 2] as nat
            + 0x100_0000 * data[at + 3] as nat
            + 0x1_0000_0000 * (data[at + 4] as nat + 0x100 * data[at + 5] as nat + 0x1_0000 * data[at + 6] as nat
                               + 0x100_0000 * data[at + 7] as nat)
  }

  /** A size, that many bytes and one more, which a writer sets to zero and a reader skips. */
  predicate IsString(data: bytes, at: nat, s: bytes, end: nat, role: Role) {
    && IsInt(data, at, |s|)
    && end == at + 8 + |s| + 1 <= |data|
    && data[at + 8..end - 1] == s
    && (role.Writer? ==> data[end - 1] == 0)
  }

  /** A writer prints the location, a reader takes any text that parses to it. */
  predicate Stands<Loc(==)>(f: LocationFormat<Loc>, printed: bytes, location: Loc, role: Role) {
    match role
    case Writer => printed == f.render(location)
    case Reader => f.parse(printed) == Some(location)
  }

  /** A severity, the location, the message and the notes, one behind the other. */
  ghost predicate IsDiagnostic<Loc>(f: LocationFormat<Loc>, data: bytes, at: nat, d: Diagnostic<Loc>, end: nat, role: Role)
    decreases d, 0
  {
    && at < |data| && data[at] == d.severity
    && exists printed, a, b ::
         && IsString(data, at + 1, printed, a, role) && Stands(f, printed, d.location, role)
         && IsString(data, a, d.message, b, role)
         && IsList(f, data, b, d.notes, end, role)
  }

  ghost predicate AreDiagnostics<Loc>(f: LocationFormat<Loc>, data: bytes, at: nat, ds: seq<Diagnostic<Loc>>, end: nat,
                                      role: Role)
    decreases ds, 0
  {
    if ds == [] then end == at
    else exists mid :: IsDiagnostic(f, data, at, ds[0], mid, role) && AreDiagnostics(f, data, mid, ds[1..], end, role)
  }

  /** The count and the diagnostics. */
  ghost predicate IsList<Loc>(f: LocationFormat<Loc>, data: bytes, at: nat, ds: seq<Diagnostic<Loc>>, end: nat, role: Role)
    decreases ds, 1
  {
    IsInt(data, at, |ds|) && AreDiagnostics(f, data, at + 8, ds, end, role)
  }

  // ----- integers -----

  lemma FourBytes(b: bytes)
    requires |b| >= 4
    ensures FromLittleEndian(b) == b[0] as nat + 0x100 * b[1] as nat + 0x1_0000 * b[2] as nat + 0x100_0000 * b[3] as nat
                                   + 0x1_0000_0000 * FromLittleEndian(b[4..])
  {
    var b1 := b[1..];
    var b2 := b1[1..];
    var b3 := b2[1..];
    assert b3[1..] == b[4..];
    assert b1[0] == b[1] && b2[0] == b[2] && b3[0] == b[3];
    assert FromLittleEndian(b) == b[0] as nat + 256 * FromLittleEndian(b1);
    assert FromLittleEndian(b1) == b[1] as nat + 256 * FromLittleEndian(b2);
    assert FromLittleEndian(b2) == b[2] as nat + 256 * FromLittleEndian(b3);
    assert FromLittleEndian(b3) == b[3] as nat + 256 * FromLittleEndian(b[4..]);
  }

  lemma IntExactly(data: bytes, at: nat, n: nat, end: int)
    requires at <= |data|
    ensures ReadInt(data, at) == Done(n, end) <==> IsInt(data, at, n) && end == at + 8
  {
    if at + 8 <= |data| {
      var b := data[at..at + 8];
      FourBytes(b);
      FourBytes(b[4..]);
      assert b[4..][4..] == [];
    }
  }

  // ----- what a reader takes -----

  lemma StringExactly(data: bytes, at: nat, s: bytes, end: nat)
    requires at <= |data|
    ensures ReadString(data, at) == Done(s, end) <==> IsString(data, at, s, end, Reader)
  {
    IntExactly(data, at, |s|, at + 8);
  }

  lemma Assembled<Loc>(f: LocationFormat<Loc>, data: bytes, at: nat, d: Diagnostic<Loc>, printed: bytes, a: nat, b: nat,
                       end: nat, role: Role)
    requires at < |data| && data[at] == d.severity
    requires IsString(data, at + 1, printed, a, role) && Stands(f, printed, d.location, role)
    requires IsString(data, a, d.message, b, role) && IsList(f, data, b, d.notes, end, role)
    ensures IsDiagnostic(f, data, at, d, end, role)
  {
  }

  lemma Joined<Loc>(f: LocationFormat<Loc>, data: bytes, at: nat, d: Diagnostic<Loc>, mid: nat, rest: seq<Diagnostic<Loc>>,
                    end: nat, role: Role)
    requires IsDiagnostic(f, data, at, d, mid, role) && AreDiagnostics(f, data, mid, rest, end, role)
    ensures AreDiagnostics(f, data, at, [d] + rest, end, role)
  {
    var all := [d] + rest;
    assert all[0] == d && all[1..] == rest;
  }

  lemma HeaderParts<Loc>(f: LocationFormat<Loc>, data: bytes, at: nat, h: Header<Loc>, b: nat)
    requires at <= |data| && ReadHeader(f, data, at) == Done(h, b)
    ensures at < |data| && data[at] == h.severity
    ensures exists printed, a :: IsString(data, at + 1, printed, a, Reader) && Stands(f, printed, h.location, Reader)
                              && IsString(data, a, h.message, b, Reader)
  {
    var first := ReadString(data, at + 1);
    assert ReadLocation(f, data, at + 1) == Done(h.location, first.at);
    var printed, a: nat := first.value, first.at;
    assert ReadString(data, a) == Done(h.message, b);
    StringExactly(data, at + 1, printed, a);
    StringExactly(data, a, h.message, b);
    assert Stands(f, printed, h.location, Reader);
  }

  lemma {:induction false} DiagnosticRead<Loc>(f: LocationFormat<Loc>, data: bytes, at: nat, d: Diagnostic<Loc>, end: nat)
    requires at <= |data| && DecodeDiagnostic(f, data, at) == Done(d, end)
    ensures IsDiagnostic(f, data, at, d, end, Reader)
    decreases d, 0
  {
    var header := ReadHeader(f, data, at);
    HeaderParts(f, data, at, header.value, header.at);
    ListRead(f, data, header.at, d.notes, end);
    var printed, a :| IsString(data, at + 1, printed, a, Reader) && Stands(f, printed, d.location, Reader)
                   && IsString(data, a, d.message, header.at, Reader);
    Assembled(f, data, at, d, printed, a, header.at, end, Reader);
  }

  lemma ManyParts<Loc>(f: LocationFormat<Loc>, data: bytes, at: nat, d: Diagnostic<Loc>, rest: seq<Diagnostic<Loc>>, end: nat)
    requires at <= |data| && DecodeMany(f, data, at, 1 + |rest|) == Done([d] + rest, end)
    ensures exists mid: nat :: mid <= |data| && DecodeDiagnostic(f, data, at) == Done(d, mid)
                            && DecodeMany(f, data, mid, |rest|) == Done(rest, end)
  {
    var one := DecodeDiagnostic(f, data, at);
    var more := DecodeMany(f, data, one.at, |rest|);
    assert [d] + rest == [one.value] + more.value;
    assert ([d] + rest)[0] == d && ([d] + rest)[1..] == rest && ([one.value] + more.value)[1..] == more.value;
  }

  lemma {:induction false} DiagnosticsRead<Loc>(f: LocationFormat<Loc>, data: bytes, at: nat, ds: seq<Diagnostic<Loc>>, end: nat)
    requires at <= |data| && DecodeMany(f, data, at, |ds|) == Done(ds, end)
    ensures AreDiagnostics(f, data, at, ds, end, Reader)
    decreases ds, 0
  {
    if ds != [] {
      var d, rest := ds[0], ds[1..];
      assert ds == [d] + rest;
      ManyParts(f, data, at, d, rest, end);
      var mid: nat :| mid <= |data| && DecodeDiagnostic(f, data, at) == Done(d, mid)
                   && DecodeMany(f, data, mid, |rest|) == Done(rest, end);
      DiagnosticRead(f, data, at, d, mid);
      DiagnosticsRead(f, data, mid, rest, end);
      Joined(f, data, at, d, mid, rest, end, Reader);
    }
  }

  lemma {:induction false} ListRead<Loc>(f: LocationFormat<Loc>, data: bytes, at: nat, ds: seq<Diagnostic<Loc>>, end: nat)
    requires at <= |data| && DecodeList(f, data, at) == Done(ds, end)
    ensures IsList(f, data, at, ds, end, Reader)
    decreases ds, 1
  {
    IntExactly(data, at, |ds|, at + 8);
    DiagnosticsRead(f, data, at + 8, ds, end);
  }

  lemma {:induction false} DiagnosticReads<Loc>(f: LocationFormat<Loc>, data: bytes, at: nat, d: Diagnostic<Loc>, end: nat)
    requires IsDiagnostic(f, data, at, d, end, Reader)
    ensures end <= |data| && DecodeDiagnostic(f, data, at) == Done(d, end)
    decreases d, 0
  {
    var printed, a, b :|
      && IsString(data, at + 1, printed, a, Reader) && Stands(f, printed, d.location, Reader)
      && IsString(data, a, d.message, b, Reader)
      && IsList(f, data, b, d.notes, end, Reader);
    StringExactly(data, at + 1, printed, a);
    StringExactly(data, a, d.message, b);
    ListReads(f, data, b, d.notes, end);
    HeaderReads(f, data, at, printed, a, d.location, d.message, b);
    OneReads(f, data, at, d, b, end);
  }

  lemma {:induction false} DiagnosticsReads<Loc>(f: LocationFormat<Loc>, data: bytes, at: nat, ds: seq<Diagnostic<Loc>>, end: nat)
    requires at <= |data| && AreDiagnostics(f, data, at, ds, end, Reader)
    ensures end <= |data| && DecodeMany(f, data, at, |ds|) == Done(ds, end)
    decreases ds, 0
  {
    if ds != [] {
      var mid :| IsDiagnostic(f, data, at, ds[0], mid, Reader) && AreDiagnostics(f, data, mid, ds[1..], end, Reader);
      DiagnosticReads(f, data, at, ds[0], mid);
      DiagnosticsReads(f, data, mid, ds[1..], end);
      ManyCons(f, data, at, ds[0], mid, ds[1..], end);
      assert [ds[0]] + ds[1..] == ds;
    }
  }

  lemma {:induction false} ListReads<Loc>(f: LocationFormat<Loc>, data: bytes, at: nat, ds: seq<Diagnostic<Loc>>, end: nat)
    requires IsList(f, data, at, ds, end, Reader)
    ensures end <= |data| && DecodeList(f, data, at) == Done(ds, end)
    decreases ds, 1
  {
    IntExactly(data, at, |ds|, at + 8);
    DiagnosticsReads(f, data, at + 8, ds, end);
  }

  /** Decoding yields a list, and an end, exactly when the data lays out that list up to that end. */
  lemma DecodedExactly<Loc>(f: LocationFormat<Loc>, data: bytes, at: nat, ds: seq<Diagnostic<Loc>>, end: nat)
    requires at <= |data|
    ensures DecodeList(f, data, at) == Done(ds, end) <==> IsList(f, data, at, ds, end, Reader)
  {
    if DecodeList(f, data, at) == Done(ds, end) {
      ListRead(f, data, at, ds, end);
    }
    if IsList(f, data, at, ds, end, Reader) {
      ListReads(f, data, at, ds, end);
    }
  }

  /** What is wrong with the data where decoding stops. */
  ghost predicate Explains<Loc>(f: LocationFormat<Loc>, data: bytes, p: Problem, stop: int) {
    match p
    case ShortInt => 0 <= stop <= |data| < stop + 8
    case ShortString(size) => 8 <= stop <= |data| < stop + size + 1 && IsInt(data, stop - 8, size)
    case NoDiagnostic => stop == |data|
    case BadLocation => stop >= 0 && exists printed, at :: IsString(data, at, printed, stop, Reader) && f.parse(printed) == None
    case Undefined => false
  }

  lemma StringExplained<Loc>(f: LocationFormat<Loc>, data: bytes, at: nat, p: Problem, stop: int)
    requires at <= |data| && ReadString(data, at) == Failed(p, stop)
    ensures Explains(f, data, p, stop)
  {
    var size := ReadInt(data, at);
    if size.Done? {
      IntExactly(data, at, size.value, size.at);
    }
  }

  lemma HeaderExplained<Loc>(f: LocationFormat<Loc>, data: bytes, at: nat, p: Problem, stop: int)
    requires at <= |data| && ReadHeader(f, data, at) == Failed(p, stop)
    ensures Explains(f, data, p, stop)
  {
    if at < |data| {
      var printed := ReadString(data, at + 1);
      if printed.Failed? {
        StringExplained(f, data, at + 1, p, stop);
      } else {
        StringExactly(data, at + 1, printed.value, printed.at);
        if f.parse(printed.value).Some? {
          StringExplained(f, data, printed.at, p, stop);
        }
      }
    }
  }

  lemma {:induction false} DiagnosticExplained<Loc>(f: LocationFormat<Loc>, data: bytes, at: nat, p: Problem, stop: int)
    requires at <= |data| && DecodeDiagnostic(f, data, at) == Failed(p, stop)
    ensures Explains(f, data, p, stop)
    decreases |data| - at, 0
  {
    var header := ReadHeader(f, data, at);
    if header.Failed? {
      HeaderExplained(f, data, at, p, stop);
    } else {
      FailureExplained(f, data, header.at, p, stop);
    }
  }

  lemma {:induction false} DiagnosticsExplained<Loc>(f: LocationFormat<Loc>, data: bytes, at: nat, n: nat, p: Problem, stop: int)
    requires at <= |data| && DecodeMany(f, data, at, n) == Failed(p, stop)
    ensures Explains(f, data, p, stop)
    decreases |data| - at, 1
  {
    var one := DecodeDiagnostic(f, data, at);
    if one.Failed? {
      DiagnosticExplained(f, data, at, p, stop);
    } else {
      DiagnosticsExplained(f, data, one.at, n - 1, p, stop);
    }
  }

  /** A list that does not decode is reported with what is wrong at the place where decoding stopped. */
  lemma {:induction false} FailureExplained<Loc>(f: LocationFormat<Loc>, data: bytes, at: nat, p: Problem, stop: int)
    requires at <= |data| && DecodeList(f, data, at) == Failed(p, stop)
    ensures Explains(f, data, p, stop)
    decreases |data| - at, 2
  {
    var count := ReadInt(data, at);
    if count.Done? {
      DiagnosticsExplained(f, data, count.at, count.value, p, stop);
    }
  }

  // ----- what a writer leaves -----

  lemma StringWritten(data: bytes, at: nat, s: bytes)
    requires |s| < ADDRESSES && At(data, at, EncodeString(s))
    ensures IsString(data, at, s, at + |EncodeString(s)|, Writer)
  {
    StringAt(data, at, s);
    StringExactly(data, at, s, at + |EncodeString(s)|);
    AtSplit(data, at, EncodeInt(|s|) + s, [0]);
    var last := at + |EncodeString(s)| - 1;
    assert data[last..last + 1][0] == data[last];
  }

  lemma {:induction false} DiagnosticWritten<Loc>(f: LocationFormat<Loc>, data: bytes, at: nat, d: Diagnostic<Loc>, end: nat)
    requires Sized(f, d) && At(data, at, EncodeDiagnostic(f, d)) && end == at + |EncodeDiagnostic(f, d)|
    ensures IsDiagnostic(f, data, at, d, end, Writer)
    decreases d, 0
  {
    var printed := f.render(d.location);
    var l, m := EncodeString(printed), EncodeString(d.message);
    AtSplit(data, at, EncodeHeader(f, d), EncodeList(f, d.notes));
    PartsAt(data, at, d.severity, l, m);
    StringWritten(data, at + 1, printed);
    StringWritten(data, at + 1 + |l|, d.message);
    ListWritten(f, data, at + 1 + |l| + |m|, d.notes, end);
    Assembled(f, data, at, d, printed, at + 1 + |l|, at + 1 + |l| + |m|, end, Writer);
  }

  lemma {:induction false} DiagnosticsWritten<Loc>(f: LocationFormat<Loc>, data: bytes, at: nat, ds: seq<Diagnostic<Loc>>, end: nat)
    requires (forall i | 0 <= i < |ds| :: Sized(f, ds[i])) && At(data, at, EncodeAll(f, ds)) && end == at + |EncodeAll(f, ds)|
    ensures AreDiagnostics(f, data, at, ds, end, Writer)
    decreases ds, 0
  {
    if ds != [] {
      var d, rest := ds[0], ds[1..];
      assert ds == [d] + rest;
      AllAt(f, data, at, d, rest);
      var mid := at + |EncodeDiagnostic(f, d)|;
      DiagnosticWritten(f, data, at, d, mid);
      DiagnosticsWritten(f, data, mid, rest, end);
      Joined(f, data, at, d, mid, rest, end, Writer);
    }
  }

  /** Wherever an encoded list stands, the bytes are laid out as a writer has to: the zeros are there. */
  lemma {:induction false} ListWritten<Loc>(f: LocationFormat<Loc>, data: bytes, at: nat, ds: seq<Diagnostic<Loc>>, end: nat)
    requires AllSized(f, ds) && At(data, at, EncodeList(f, ds)) && end == at + |EncodeList(f, ds)|
    ensures IsList(f, data, at, ds, end, Writer)
    decreases ds, 1
  {
    AtSplit(data, at, EncodeInt(|ds|), EncodeAll(f, ds));
    IntAt(data, at, |ds|);
    IntExactly(data, at, |ds|, at + 8);
    DiagnosticsWritten(f, data, at + 8, ds, end);
  }

  // ----- the payload -----

  lemma ThreeParts(a: bytes, b: bytes, c: bytes)
    ensures At(a + b + c, |a|, b) && At(a + b + c, |a + b|, c)
  {
  }

  lemma PartsWritten<Loc>(f: LocationFormat<Loc>, p: bytes, ds: seq<Diagnostic<Loc>>, at: nat, end: nat)
    requires AllSized(f, ds) && at < ADDRESSES && At(p, at, EncodeList(f, ds)) && end == at + |EncodeList(f, ds)|
    requires At(p, end, EncodeInt(at))
    ensures IsList(f, p, at, ds, end, Writer) && IsInt(p, end, at)
  {
    ListWritten(f, p, at, ds, end);
    IntAt(p, end, at);
    IntExactly(p, end, at, end + 8);
  }

  lemma PayloadSpans(bytecode: bytes, list: bytes, footer: bytes)
    ensures var p := bytecode + list + footer;
            |p| - |footer| == |bytecode + list| >= |bytecode| && p[..|bytecode|] == bytecode
  {
  }

  /** Bytecode from the start, the list behind it up to the last eight bytes, and these hold the bytecode's size. */
  lemma PayloadWritten<Loc>(f: LocationFormat<Loc>, bytecode: bytes, ds: seq<Diagnostic<Loc>>)
    requires AllSized(f, ds) && |bytecode| < ADDRESSES
    ensures var p := Payload(f, bytecode, ds);
            && |p| >= |bytecode| + 8 && p[..|bytecode|] == bytecode
            && IsList(f, p, |bytecode|, ds, |p| - 8, Writer) && IsInt(p, |p| - 8, |bytecode|)
  {
    var list, footer := EncodeList(f, ds), EncodeInt(|bytecode|);
    PayloadSpans(bytecode, list, footer);
    ThreeParts(bytecode, list, footer);
    PartsWritten(f, bytecode + list + footer, ds, |bytecode|, |bytecode + list|);
  }

  lemma FooterExactly(buffer: bytes, size: nat)
    ensures Footer(buffer) == Some(size) <==> |buffer| >= 8 && IsInt(buffer, |buffer| - 8, size) && size <= |buffer|
  {
    if |buffer| >= 8 {
      IntExactly(buffer, |buffer| - 8, size, |buffer|);
      assert buffer[|buffer| - 8..] == buffer[|buffer| - 8..|buffer| - 8 + 8];
    }
  }

  /** The data begins with this list. */
  ghost predicate Begins<Loc>(f: LocationFormat<Loc>, data: bytes, ds: seq<Diagnostic<Loc>>) {
    exists end :: IsList(f, data, 0, ds, end, Reader)
  }

  lemma BeginsExactly<Loc>(f: LocationFormat<Loc>, data: bytes, ds: seq<Diagnostic<Loc>>)
    ensures var read := DecodeList(f, data, 0);
            read.Done? && read.value == ds <==> Begins(f, data, ds)
  {
    var read := DecodeList(f, data, 0);
    if read.Done? && read.value == ds {
      ListRead(f, data, 0, ds, read.at);
    }
    if Begins(f, data, ds) {
      var end :| IsList(f, data, 0, ds, end, Reader);
      ListReads(f, data, 0, ds, end);
    }
  }

  lemma HitOfRest<Loc>(f: LocationFormat<Loc>, base: nat, buffer: bytes, size: nat, ds: seq<Diagnostic<Loc>>)
    requires Footer(buffer) == Some(size)
    ensures forall b :: CacheHit(f, base, buffer) == Recovered(b, ds) <==>
              && b == buffer[..size]
              && DecodeList(f, buffer[size..], 0).Done? && DecodeList(f, buffer[size..], 0).value == ds
  {
  }

  /**
   A hit recovers a bytecode and a list exactly when the last eight bytes are the bytecode's size, it fits, the
   bytecode stands in front and the list right behind it; what comes between the list and the footer, if
   anything, is not looked at.
   */
  lemma HitExactly<Loc>(f: LocationFormat<Loc>, base: nat, buffer: bytes, bytecode: bytes, ds: seq<Diagnostic<Loc>>)
    ensures CacheHit(f, base, buffer) == Recovered(bytecode, ds) <==>
              && |buffer| >= 8 && IsInt(buffer, |buffer| - 8, |bytecode|)
              && |bytecode| <= |buffer| && buffer[..|bytecode|] == bytecode
              && Begins(f, buffer[|bytecode|..], ds)
  {
    FooterExactly(buffer, |bytecode|);
    if Footer(buffer) == Some(|bytecode|) {
      var rest := buffer[|bytecode|..];
      BeginsExactly(f, rest, ds);
      HitOfRest(f, base, buffer, |bytecode|, ds);
    }
  }
}
