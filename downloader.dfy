/** The chunked downloader (`Downloader` in downloader.rs): what the constructor derives from the
    probing response, the range planner, the per-worker streaming loop that writes each received
    piece at its offset and bumps the shared progress counter, and the top-level dispatch. */
module Downloader {
  import opened Wrappers
  import opened Strings
  import opened Paths

  type byte = x: int | 0 <= x < 256
  type u8 = x: int | 0 <= x < 256

  function Min(a: nat, b: nat): nat { if a < b then a else b }
  function Max(a: nat, b: nat): nat { if a < b then b else a }

  // ---------------------------------------------------------------------------------------
  // Probe-time derivations

  /** The headers of the probing response that the constructor reads. */
  datatype Headers = Headers(
    contentType: Option<seq<byte>>,
    contentLength: Option<nat>,
    acceptRanges: Option<seq<byte>>)

  predicate IsVisibleAscii(b: byte) {
    32 <= b < 127 || b == 9
  }

  /** `HeaderValue::to_str`: the text of a header whose bytes are all visible ASCII or tabs. */
  function HeaderText(v: seq<byte>): (r: Option<string>)
    ensures r.Some? <==> forall k :: 0 <= k < |v| ==> IsVisibleAscii(v[k])
    ensures r.Some? ==> |r.value| == |v| && forall k :: 0 <= k < |v| ==> r.value[k] as int == v[k] as int
  {
    if forall k :: 0 <= k < |v| ==> IsVisibleAscii(v[k])
    then Some(seq(|v|, k requires 0 <= k < |v| => v[k] as char))
    else None
  }

  /** The arms of the `match` on the content-type text, in source order: a media type and the
      extension it gets. */
  const MediaTypes: seq<(string, string)> := [
    ("video/x-flv", ".flv"),
    ("video/mp4", ".mp4"),
    ("application/x-mpegURL", ".m3u8"),
    ("video/MP2T", ".ts"),
    ("video/3gpp", ".3gpp"),
    ("video/quicktime", ".mov"),
    ("video/x-msvideo", ".avi"),
    ("video/x-ms-wmv", ".wmv"),
    ("audio/x-wav", ".wav"),
    ("audio/x-mp3", ".mp3"),
    ("audio/mp4", ".mp4"),
    ("application/ogg", ".ogg"),
    ("image/jpeg", ".jpeg"),
    ("image/png", ".png"),
    ("image/tiff", ".tiff"),
    ("image/gif", ".gif"),
    ("image/svg+xml", ".svg")]

  /** The default arm's extension, also used for a missing or unreadable header. */
  const DefaultExtension: string := ".mp4"

  /** The first arm whose pattern is exactly `t`, as a `match` on string literals tries them. */
  function FirstArm(arms: seq<(string, string)>, t: string): (r: Option<nat>)
    ensures r.Some? ==>
      (r.value < |arms| && arms[r.value].0 == t && forall j :: 0 <= j < r.value ==> arms[j].0 != t)
    ensures r.None? ==> forall j :: 0 <= j < |arms| ==> arms[j].0 != t
    decreases |arms|
  {
    if |arms| == 0 then None
    else if arms[0].0 == t then Some(0)
    else match FirstArm(arms[1..], t)
      case None => None
      case Some(i) => Some(i + 1)
  }

  /** Every arm yields a well-formed extension. */
  lemma ArmExtensions()
    ensures forall i :: 0 <= i < |MediaTypes| ==> IsExtension(MediaTypes[i].1)
  {
    forall i | 0 <= i < |MediaTypes| ensures IsExtension(MediaTypes[i].1) {
      var e := MediaTypes[i].1;
      assert e[0] == '.';
    }
  }

  /** Every listed media type starts with a lower-case letter. */
  lemma ArmTypesLowerCase()
    ensures forall i :: 0 <= i < |MediaTypes| ==> |MediaTypes[i].0| > 0 && 'a' <= MediaTypes[i].0[0] <= 'z'
  {
  }

  /** A `match` of `t` against string-literal arms with a default arm: the first arm whose
      pattern is `t` decides, and the default applies when none is. */
  function MatchArms(arms: seq<(string, string)>, default: string, t: string): (r: string)
    ensures forall i ::
      (0 <= i < |arms| && arms[i].0 == t && (forall j :: 0 <= j < i ==> arms[j].0 != t)) ==> r == arms[i].1
    ensures (forall i :: 0 <= i < |arms| ==> arms[i].0 != t) ==> r == default
    ensures r == default || exists i :: 0 <= i < |arms| && r == arms[i].1
  {
    match FirstArm(arms, t)
    case Some(i) => arms[i].1
    case None => default
  }

  /** The `match` on the content-type text: exact, case-sensitive comparison with each listed
      type in turn; anything else gives the default. */
  function ExtensionForType(t: string): (ext: string)
    ensures IsExtension(ext)
    ensures forall i ::
      (0 <= i < |MediaTypes| && MediaTypes[i].0 == t && (forall j :: 0 <= j < i ==> MediaTypes[j].0 != t))
      ==> ext == MediaTypes[i].1
    ensures (forall i :: 0 <= i < |MediaTypes| ==> MediaTypes[i].0 != t) ==> ext == DefaultExtension
  {
    ArmExtensions();
    MatchArms(MediaTypes, DefaultExtension, t)
  }

  /** The extension chosen from the `content-type` header: a missing header, or one that is not
      visible ASCII (read as "video/mp4"), gives the default. */
  function ExtensionFor(contentType: Option<seq<byte>>): (ext: string)
    ensures IsExtension(ext)
    ensures contentType.None? ==> ext == DefaultExtension
    ensures contentType.Some? && HeaderText(contentType.value).None? ==> ext == DefaultExtension
    ensures contentType.Some? && HeaderText(contentType.value).Some? ==>
      ext == ExtensionForType(HeaderText(contentType.value).value)
    ensures ext == DefaultExtension || exists i :: 0 <= i < |MediaTypes| && ext == MediaTypes[i].1
  {
    assert MediaTypes[1] == ("video/mp4", DefaultExtension);
    match contentType
    case None => DefaultExtension
    case Some(v) =>
      var t := match HeaderText(v) case Some(text) => text case None => "video/mp4";
      ExtensionForType(t)
  }

  /** Listed types get the extensions of their arms. */
  lemma ExtensionExamples()
    ensures ExtensionForType("video/mp4") == ".mp4" && ExtensionForType("video/MP2T") == ".ts"
  {
    assert MediaTypes[1].0 == "video/mp4";
    assert MediaTypes[3].0 == "video/MP2T";
  }

  /** Matching is case-sensitive: `IMAGE/PNG` is no listed type and gets the default. */
  lemma ExtensionCaseSensitive()
    ensures ExtensionForType("IMAGE/PNG") == DefaultExtension
  {
    var t := "IMAGE/PNG";
    ArmTypesLowerCase();
    forall i | 0 <= i < |MediaTypes| ensures MediaTypes[i].0 != t {
      assert t[0] == 'I';
    }
  }

  /** The worker count: the caller's, or 4 when none is given. */
  function ChunkCountOrDefault(c: Option<u8>): (n: u8)
    ensures c.Some? ==> n == c.value
    ensures c.None? ==> n == 4
  {
    match c
    case Some(v) => v
    case None => 4
  }

  // ---------------------------------------------------------------------------------------
  // The destination file and positional writes

  /** How the disk treats a positional write of `len` bytes at `offset`: `Some(n)` takes at most
      `n` of them (a short write when `n < len`), `None` is an I/O error. */
  type Disk = (nat, nat) -> Option<nat>

  datatype WriteResult = Written(count: nat) | IoError

  function WriteOutcome(disk: Disk, offset: nat, data: seq<byte>): (r: WriteResult)
    ensures r.Written? ==> r.count <= |data|
    ensures r.IoError? <==> disk(offset, |data|).None?
  {
    match disk(offset, |data|)
    case None => IoError
    case Some(n) => Written(if n < |data| then n else |data|)
  }

  /** A disk on which every write succeeds in full. */
  ghost predicate Healthy(disk: Disk) {
    forall o, n :: disk(o, n).Some? && disk(o, n).value >= n
  }

  function Zeros(n: nat): (z: seq<byte>)
    ensures |z| == n && forall k :: 0 <= k < n ==> z[k] == 0
  {
    seq(n, _ => 0)
  }

  /** The file after `data` is written at `offset`: the bytes there are `data`, every other
      byte is kept, a gap past the old end reads as zeros; an empty write changes nothing. */
  function Overlay(f: seq<byte>, data: seq<byte>, offset: nat): (r: seq<byte>)
    ensures |data| == 0 ==> r == f
    ensures |data| > 0 ==> |r| == Max(|f|, offset + |data|)
    ensures forall k :: 0 <= k < |data| ==> offset + k < |r| && r[offset + k] == data[k]
    ensures forall i :: 0 <= i < |f| && !(offset <= i < offset + |data|) ==> i < |r| && r[i] == f[i]
    ensures forall i :: |f| <= i < |r| && i < offset ==> r[i] == 0
  {
    if |data| == 0 then f
    else
      var padded := if |f| < offset then f + Zeros(offset - |f|) else f;
      var rest := if offset + |data| < |padded| then padded[offset + |data|..] else [];
      padded[..offset] + data + rest
  }

  /** One positional write a worker issues. */
  datatype Write = Write(offset: nat, data: seq<byte>)

  /** The effect of one write, as far as the disk lets it through. */
  function ApplyWrite(f: seq<byte>, w: Write, disk: Disk): seq<byte> {
    match WriteOutcome(disk, w.offset, w.data)
    case IoError => f
    case Written(n) => Overlay(f, w.data[..n], w.offset)
  }

  /** The effect of a sequence of writes, in order. */
  function ApplyWrites(f: seq<byte>, ws: seq<Write>, disk: Disk): seq<byte>
    decreases |ws|
  {
    if |ws| == 0 then f else ApplyWrite(ApplyWrites(f, ws[..|ws| - 1], disk), ws[|ws| - 1], disk)
  }

  lemma {:induction false} ApplyWritesAppend(f: seq<byte>, a: seq<Write>, b: seq<Write>, disk: Disk)
    ensures ApplyWrites(f, a + b, disk) == ApplyWrites(ApplyWrites(f, a, disk), b, disk)
    decreases |b|
  {
    if |b| == 0 {
      assert a + b == a;
    } else {
      assert (a + b)[..|a + b| - 1] == a + b[..|b| - 1];
      assert (a + b)[|a + b| - 1] == b[|b| - 1];
      ApplyWritesAppend(f, a, b[..|b| - 1], disk);
    }
  }

  /** On a disk that refuses every write, the file never changes. */
  lemma {:induction false} FailingDiskKeepsFile(f: seq<byte>, ws: seq<Write>, disk: Disk)
    requires forall o, n :: disk(o, n).None?
    ensures ApplyWrites(f, ws, disk) == f
    decreases |ws|
  {
    if |ws| > 0 {
      FailingDiskKeepsFile(f, ws[..|ws| - 1], disk);
      var w := ws[|ws| - 1];
      assert disk(w.offset, |w.data|).None?;
    }
  }

  /** The destination file. `write_bytes_to_file` opens it (creating it if needed) and writes
      at an explicit offset, with no shared cursor. */
  class File {
    var bytes: seq<byte>
    const disk: Disk

    constructor (initial: seq<byte>, disk: Disk)
      ensures bytes == initial && this.disk == disk
    {
      bytes := initial;
      this.disk := disk;
    }

    method WriteAt(data: seq<byte>, offset: nat) returns (r: WriteResult)
      modifies this
      ensures r == WriteOutcome(disk, offset, data)
      ensures bytes == ApplyWrite(old(bytes), Write(offset, data), disk)
    {
      r := WriteOutcome(disk, offset, data);
      match r
      case IoError =>
      case Written(n) =>
        bytes := Overlay(bytes, data[..n], offset);
    }
  }

  // ---------------------------------------------------------------------------------------
  // Received bodies and where their pieces go

  /** A response body as the stream of pieces `chunk()` yields, and whether the stream (or the
      request before it) ended in an error. */
  datatype Response = Response(pieces: seq<seq<byte>>, failed: bool)

  /** The server, answering a request that carries an optional `Range` header. */
  type Server = Option<string> -> Response

  datatype DownloadError = TransferError

  /** The number of bytes in a sequence of pieces. */
  function TotalLen(ps: seq<seq<byte>>): nat
    decreases |ps|
  {
    if |ps| == 0 then 0 else TotalLen(ps[..|ps| - 1]) + |ps[|ps| - 1]|
  }

  /** The pieces one after the other. */
  function Flatten(ps: seq<seq<byte>>): (r: seq<byte>)
    ensures |r| == TotalLen(ps)
    decreases |ps|
  {
    if |ps| == 0 then [] else Flatten(ps[..|ps| - 1]) + ps[|ps| - 1]
  }

  /** The writes a worker issues for the pieces it receives: each piece goes to `start` plus
      the number of bytes received before it. */
  function WriteTrace(start: nat, ps: seq<seq<byte>>): seq<Write>
    decreases |ps|
  {
    if |ps| == 0 then []
    else WriteTrace(start, ps[..|ps| - 1]) + [Write(start + TotalLen(ps[..|ps| - 1]), ps[|ps| - 1])]
  }

  /** Taking one more piece adds its length to the count. */
  lemma NextPieceLen(ps: seq<seq<byte>>, i: nat)
    requires i < |ps|
    ensures TotalLen(ps[..i + 1]) == TotalLen(ps[..i]) + |ps[i]|
  {
    assert ps[..i + 1][..i] == ps[..i];
  }

  /** Taking one more piece adds one write to the trace, placed after the pieces before it. */
  lemma NextPiece(f: seq<byte>, start: nat, ps: seq<seq<byte>>, i: nat, disk: Disk)
    requires i < |ps|
    ensures ApplyWrites(f, WriteTrace(start, ps[..i + 1]), disk)
      == ApplyWrite(ApplyWrites(f, WriteTrace(start, ps[..i]), disk), Write(start + TotalLen(ps[..i]), ps[i]), disk)
  {
    var t := WriteTrace(start, ps[..i]);
    var w := Write(start + TotalLen(ps[..i]), ps[i]);
    assert ps[..i + 1][..i] == ps[..i];
    assert WriteTrace(start, ps[..i + 1]) == t + [w];
    assert (t + [w])[..|t|] == t;
  }

  /** The k-th write carries the k-th piece, placed after everything received before it. */
  lemma {:induction false} WriteTracePlacement(start: nat, ps: seq<seq<byte>>)
    ensures |WriteTrace(start, ps)| == |ps|
    ensures forall k :: 0 <= k < |ps| ==> WriteTrace(start, ps)[k] == Write(start + TotalLen(ps[..k]), ps[k])
    decreases |ps|
  {
    if |ps| > 0 {
      var init := ps[..|ps| - 1];
      WriteTracePlacement(start, init);
      forall k | 0 <= k < |ps|
        ensures WriteTrace(start, ps)[k] == Write(start + TotalLen(ps[..k]), ps[k])
      {
        if k < |init| {
          assert init[..k] == ps[..k];
        } else {
          assert ps[..k] == init;
        }
      }
    }
  }

  /** `r` is `f` with `data` laid down from `start`: no shorter than `f`, long enough to hold
      `data`, unchanged below `start`, and holding `data` from `start` on. */
  ghost predicate Landed(f: seq<byte>, r: seq<byte>, start: nat, data: seq<byte>) {
    |r| >= |f| && (|data| > 0 ==> |r| >= start + |data|)
    && (forall i :: 0 <= i < |f| && i < start ==> r[i] == f[i])
    && (forall k :: 0 <= k < |data| ==> start + k < |r| && r[start + k] == data[k])
  }

  /** Writing `p` in full right after a region that already holds `a` from `start` extends it
      to a region holding `a + p`, and keeps what lies below `start`. */
  lemma PlaceAfter(f: seq<byte>, r0: seq<byte>, start: nat, a: seq<byte>, p: seq<byte>)
    requires Landed(f, r0, start, a)
    ensures Landed(f, Overlay(r0, p, start + |a|), start, a + p)
  {
    var o := start + |a|;
    var r := Overlay(r0, p, o);
    if |p| == 0 {
      assert a + p == a;
    } else {
      assert |r| >= |r0| && |r| >= o + |p|;
      forall i | 0 <= i < |f| && i < start ensures r[i] == f[i] {
        assert r[i] == r0[i];
      }
      forall k | 0 <= k < |a + p| ensures start + k < |r| && r[start + k] == (a + p)[k] {
        if k < |a| {
          assert r[start + k] == r0[start + k];
        } else {
          assert r[o + (k - |a|)] == p[k - |a|];
        }
      }
    }
  }

  /** On a healthy disk the last piece's write lands in full after all the earlier ones. */
  lemma TraceLastWrite(f: seq<byte>, start: nat, ps: seq<seq<byte>>, disk: Disk)
    requires Healthy(disk) && |ps| > 0
    ensures ApplyWrites(f, WriteTrace(start, ps), disk)
      == Overlay(ApplyWrites(f, WriteTrace(start, ps[..|ps| - 1]), disk), ps[|ps| - 1], start + TotalLen(ps[..|ps| - 1]))
  {
    var p := ps[|ps| - 1];
    var t := WriteTrace(start, ps[..|ps| - 1]);
    var w := Write(start + TotalLen(ps[..|ps| - 1]), p);
    assert (t + [w])[..|t|] == t;
    assert disk(w.offset, |p|).Some? && disk(w.offset, |p|).value >= |p|;
    assert p[..|p|] == p;
  }

  /** On a healthy disk, a worker's pieces end up back to back from `start`: the file there
      holds exactly the bytes received, and nothing before `start` changes. */
  lemma {:induction false} StreamLandsContiguously(f: seq<byte>, start: nat, ps: seq<seq<byte>>, disk: Disk)
    requires Healthy(disk)
    ensures Landed(f, ApplyWrites(f, WriteTrace(start, ps), disk), start, Flatten(ps))
    decreases |ps|
  {
    if |ps| > 0 {
      var init := ps[..|ps| - 1];
      var p := ps[|ps| - 1];
      StreamLandsContiguously(f, start, init, disk);
      TraceLastWrite(f, start, ps, disk);
      assert Flatten(ps) == Flatten(init) + p;
      PlaceAfter(f, ApplyWrites(f, WriteTrace(start, init), disk), start, Flatten(init), p);
    }
  }

  // ---------------------------------------------------------------------------------------
  // The Range header

  /** `format!("bytes={}-{}", start, end)`. */
  function RangeHeader(s: nat, e: nat): (h: string)
    ensures |h| == 7 + |Decimal(s)| + |Decimal(e)| && |h| >= 9
    ensures h[..6] == "bytes=" && h[6 + |Decimal(s)|] == '-'
    ensures forall k :: 6 <= k < |h| && k != 6 + |Decimal(s)| ==> IsDigit(h[k])
  {
    "bytes=" + Decimal(s) + "-" + Decimal(e)
  }

  /** A server's reading of a `bytes=first-last` header. */
  function ParseRange(h: string): Option<(nat, nat)> {
    if |h| >= 6 && h[..6] == "bytes=" then
      var parts := Split(h[6..], "-");
      if |parts| == 2 && ParseNat(parts[0]).Some? && ParseNat(parts[1]).Some?
      then Some((ParseNat(parts[0]).value, ParseNat(parts[1]).value))
      else None
    else None
  }

  /** The header names exactly the range it was made from. */
  lemma RangeHeaderRoundTrip(s: nat, e: nat)
    ensures ParseRange(RangeHeader(s, e)) == Some((s, e))
  {
    var h := RangeHeader(s, e);
    assert h[..6] == "bytes=";
    assert h[6..] == Decimal(s) + ['-'] + Decimal(e);
    assert '-' !in Decimal(s) && '-' !in Decimal(e) by {
      forall k | 0 <= k < |Decimal(s)| ensures Decimal(s)[k] != '-' { assert IsDigit(Decimal(s)[k]); }
      forall k | 0 <= k < |Decimal(e)| ensures Decimal(e)[k] != '-' { assert IsDigit(Decimal(e)[k]); }
    }
    SplitAtFirst(Decimal(s), '-', Decimal(e));
    SplitAbsent(Decimal(e), '-');
    DecimalRoundTrip(s);
    DecimalRoundTrip(e);
  }

  // ---------------------------------------------------------------------------------------
  // The range planner

  /** Range `i` of the plan for chunk size `cs`: it ends at `(i + 1) * cs`; the first starts
      at 0 and each later one right after the end of the one before. */
  function PlannedRange(i: nat, cs: nat): (nat, nat) {
    (if i == 0 then 0 else i * cs + 1, i * cs + cs)
  }

  /** The ranges the planning loop produces for chunk size `cs`, in closed form: there are
      `total / cs + 1` of them. */
  function PlannedRanges(total: nat, cs: nat): (rs: seq<(nat, nat)>)
    requires cs >= 1
    ensures |rs| == total / cs + 1 && rs[0] == (0, cs)
  {
    seq(total / cs + 1, i requires 0 <= i => PlannedRange(i, cs))
  }

  lemma DivBounds(total: nat, cs: nat)
    requires cs >= 1
    ensures (total / cs) * cs <= total < (total / cs + 1) * cs
  {
  }

  lemma DivAtLeastOne(a: nat, b: nat)
    requires 1 <= b <= a
    ensures a / b >= 1
  {
  }

  lemma DivUnique(total: nat, cs: nat, q: nat)
    requires cs >= 1 && q * cs <= total < (q + 1) * cs
    ensures q == total / cs
  {
    DivBounds(total, cs);
    if q < total / cs {
      MulLe(q + 1, total / cs, cs);
    } else if q > total / cs {
      MulLe(total / cs + 1, q, cs);
    }
  }

  lemma MulSucc(a: nat, c: nat)
    ensures (a + 1) * c == a * c + c
  {
  }

  lemma MulLe(a: nat, b: nat, c: nat)
    requires a <= b
    ensures a * c <= b * c
  {
  }

  /** The planning loop of `download`. It stops only once `end` passes `total`, so the last range
      always reaches past the file; with `count` above `total` the chunk size is 0 and the loop
      would never end, and with `count` 0 the division fails: hence the precondition. */
  method PlanRanges(total: nat, count: u8) returns (ranges: seq<(nat, nat)>)
    requires 1 <= count <= total
    ensures ranges == PlannedRanges(total, total / count)
  {
    var chunkSize := total / count;
    assert chunkSize >= 1 by {
      MulLe(1, count, 1);
    }
    ranges := [];
    var start, end := 0, 0;
    while end <= total
      invariant end == |ranges| * chunkSize
      invariant start == if |ranges| == 0 then 0 else end + 1
      invariant |ranges| == 0 || (|ranges| - 1) * chunkSize <= total
      invariant forall i :: 0 <= i < |ranges| ==> ranges[i] == PlannedRange(i, chunkSize)
      decreases total + chunkSize - end
    {
      MulSucc(|ranges|, chunkSize);
      end := end + chunkSize;
      ranges := ranges + [(start, end)];
      start := end + 1;
    }
    MulSucc(|ranges| - 1, chunkSize);
    DivUnique(total, chunkSize, |ranges| - 1);
  }

  /** The ranges are contiguous from 0: each starts right after the end of the one before, and
      none is empty. */
  lemma PlanContiguous(total: nat, cs: nat)
    requires cs >= 1
    ensures var rs := PlannedRanges(total, cs);
      rs[0] == (0, cs)
      && (forall i :: 0 < i < |rs| ==> rs[i].0 == rs[i - 1].1 + 1)
      && (forall i :: 0 <= i < |rs| ==> rs[i].0 <= rs[i].1)
  {
    var rs := PlannedRanges(total, cs);
    forall i | 0 < i < |rs| ensures rs[i].0 == rs[i - 1].1 + 1 {
      MulSucc(i - 1, cs);
    }
  }

  /** There are `total / cs + 1` ranges, range `i` ends at `(i + 1) * cs`, every end but the
      last is within `total`, and the last end lies strictly beyond it. */
  lemma {:induction false} PlanShape(total: nat, cs: nat)
    requires cs >= 1
    ensures var rs := PlannedRanges(total, cs);
      |rs| == total / cs + 1
      && (forall i :: 0 <= i < |rs| ==> rs[i].1 == (i + 1) * cs)
      && (forall i :: 0 <= i < |rs| - 1 ==> rs[i].1 <= total)
      && rs[|rs| - 1].1 > total
  {
    var rs := PlannedRanges(total, cs);
    var q := total / cs;
    DivBounds(total, cs);
    forall i | 0 <= i < |rs| ensures rs[i].1 == (i + 1) * cs {
      MulSucc(i, cs);
    }
    forall i | 0 <= i < |rs| - 1 ensures rs[i].1 <= total {
      assert rs[i].1 == (i + 1) * cs;
      MulLe(i + 1, q, cs);
    }
    MulSucc(q, cs);
  }

  /** No two ranges share a byte: earlier ranges end before later ones start. */
  lemma {:induction false} PlanDisjoint(total: nat, cs: nat)
    requires cs >= 1
    ensures var rs := PlannedRanges(total, cs);
      forall i, j :: 0 <= i < j < |rs| ==> rs[i].1 < rs[j].0
  {
    var rs := PlannedRanges(total, cs);
    forall i, j | 0 <= i < j < |rs| ensures rs[i].1 < rs[j].0 {
      MulSucc(i, cs);
      MulLe(i + 1, j, cs);
    }
  }

  /** The range that holds byte `b`. */
  function RangeIndex(b: nat, cs: nat): nat
    requires cs >= 1
  {
    if b == 0 then 0 else (b - 1) / cs
  }

  /** The arithmetic behind `PlanCovers`: a byte below `total` falls into range `i <= q`. */
  lemma IndexWithin(b: nat, total: nat, cs: nat, i: nat, q: nat)
    requires cs >= 1 && i * cs <= b < i * cs + cs && b < total < q * cs + cs
    ensures i <= q && i * cs + 1 <= b + 1 <= i * cs + cs
  {
    if i > q {
      MulSucc(q, cs);
      MulLe(q + 1, i, cs);
    }
  }

  /** Every byte of the file lies in a range (and, by `PlanDisjoint`, in only one). */
  lemma {:induction false} PlanCovers(total: nat, cs: nat, b: nat)
    requires cs >= 1 && b < total
    ensures var rs := PlannedRanges(total, cs); var i := RangeIndex(b, cs);
      i < |rs| && rs[i].0 <= b <= rs[i].1
  {
    var rs := PlannedRanges(total, cs);
    var q := total / cs;
    var i := RangeIndex(b, cs);
    DivBounds(total, cs);
    MulSucc(q, cs);
    if b > 0 {
      DivBounds(b - 1, cs);
      MulSucc(i, cs);
      IndexWithin(b - 1, total, cs, i, q);
    }
    assert i < |rs|;
    assert rs[i] == PlannedRange(i, cs);
  }

  /** With the chunk size the planner uses, there is always at least one range more than the
      worker count asked for. */
  lemma {:induction false} PlanOutnumbersWorkers(total: nat, count: nat)
    requires 1 <= count <= total
    ensures total / count >= 1 && |PlannedRanges(total, total / count)| >= count + 1
  {
    var cs := total / count;
    DivBounds(total, count);
    DivAtLeastOne(total, count);
    assert cs * count <= total;
    assert total / cs >= count by {
      DivBounds(total, cs);
      if total / cs < count {
        MulLe(total / cs + 1, count, cs);
      }
    }
  }

  /** The last range starts at `total / cs * cs + 1`: past the end of the file exactly when the
      chunk size divides the size, and at or past the end, so that it names no byte of the file,
      exactly when `total % cs <= 1`. */
  lemma {:induction false} PlanLastRangeBeyond(total: nat, cs: nat)
    requires 1 <= cs <= total
    ensures var rs := PlannedRanges(total, cs);
      (rs[|rs| - 1].0 == total + 1) <==> (total % cs == 0)
    ensures var rs := PlannedRanges(total, cs);
      (rs[|rs| - 1].0 >= total) <==> (total % cs <= 1)
    ensures var rs := PlannedRanges(total, cs);
      total % cs != 0 ==> rs[|rs| - 1].0 <= total
  {
    var q := total / cs;
    assert q >= 1 by {
      if q == 0 { DivBounds(total, cs); }
    }
    assert total == q * cs + total % cs;
  }

  /** 1000 bytes and 4 workers: chunk size 250 and five ranges, the last one past the end. */
  lemma PlanExample()
    ensures PlannedRanges(1000, 1000 / 4) == [(0, 250), (251, 500), (501, 750), (751, 1000), (1001, 1250)]
  {
  }

  // ---------------------------------------------------------------------------------------
  // Chunked transfers as a whole

  /** The response to the ranged request for `range`. */
  function RangeResponse(server: Server, range: (nat, nat)): Response {
    server(Some(RangeHeader(range.0, range.1)))
  }

  /** All writes of the workers for `rs`, run one after another in range order. */
  function ChunkedTrace(rs: seq<(nat, nat)>, server: Server): seq<Write>
    decreases |rs|
  {
    if |rs| == 0 then []
    else ChunkedTrace(rs[..|rs| - 1], server) + WriteTrace(rs[|rs| - 1].0, RangeResponse(server, rs[|rs| - 1]).pieces)
  }

  /** The bytes all workers for `rs` receive. */
  function ChunkedBytes(rs: seq<(nat, nat)>, server: Server): nat
    decreases |rs|
  {
    if |rs| == 0 then 0
    else ChunkedBytes(rs[..|rs| - 1], server) + TotalLen(RangeResponse(server, rs[|rs| - 1]).pieces)
  }

  /** The bytes received for the ranges of `rs` that start at or past the end of a resource of
      `size` bytes. Section 2.1 of RFC 7233 calls such a range unsatisfiable; the server answers
      it with status 416 and a body of its own choosing, which the request does not treat as an
      error, so the worker writes it and counts it like any other body. */
  function BeyondBytes(rs: seq<(nat, nat)>, server: Server, size: nat): nat
    decreases |rs|
  {
    if |rs| == 0 then 0
    else
      var last := rs[|rs| - 1];
      BeyondBytes(rs[..|rs| - 1], server, size) + (if last.0 >= size then TotalLen(RangeResponse(server, last).pieces) else 0)
  }

  /** The bytes of `resource` a server sends for a satisfiable range `r` (one that starts
      within the resource): a last-byte position past the end is cut to the end, as section 2.1
      of RFC 7233 says. */
  function Clamp(resource: seq<byte>, r: (nat, nat)): seq<byte>
    requires r.0 <= r.1 && r.0 < |resource|
  {
    resource[r.0..Min(r.1 + 1, |resource|)]
  }

  /** A server that never fails and sends `resource`: the whole of it without a Range header,
      the clamped slice for a satisfiable range. An unsatisfiable range may get any answer at
      all, the 416 status with a body included. */
  ghost predicate IdealServer(server: Server, resource: seq<byte>) {
    !server(None).failed && Flatten(server(None).pieces) == resource
    && forall h ::
      (ParseRange(h).Some? && ParseRange(h).value.0 <= ParseRange(h).value.1 && ParseRange(h).value.0 < |resource|) ==>
      !server(Some(h)).failed && Flatten(server(Some(h)).pieces) == Clamp(resource, ParseRange(h).value)
  }

  /** A region holding `resource[p0..p]` written from `s` extends a file that already holds
      `resource[..p0]` into one holding `resource[..p]`. */
  lemma PrefixExtends(f0: seq<byte>, r: seq<byte>, s: nat, fl: seq<byte>, resource: seq<byte>, p0: nat, p: nat)
    requires p0 <= p <= |resource| && p0 <= s && (p0 < s ==> p == p0)
    requires HoldsPrefix(f0, resource, p0) && fl == resource[p0..p]
    requires Landed(f0, r, s, fl)
    ensures HoldsPrefix(r, resource, p)
  {
    assert |r| >= p by {
      if p0 == s && |fl| > 0 {
        assert |r| >= s + |fl|;
      }
    }
    forall i | 0 <= i < p ensures r[i] == resource[i] {
      if i < p0 {
        assert f0[i] == f0[..p0][i];
      } else {
        assert r[s + (i - s)] == fl[i - s];
      }
    }
  }

  /** The file holds the first `p` bytes of `resource` at its front. */
  ghost predicate HoldsPrefix(r: seq<byte>, resource: seq<byte>, p: nat) {
    p <= |resource| && |r| >= p && r[..p] == resource[..p]
  }

  /** Ranges that start at 0, each right after the end of the one before, none empty. */
  predicate Contiguous(rs: seq<(nat, nat)>) {
    |rs| >= 1 && rs[0].0 == 0
    && (forall i :: 0 < i < |rs| ==> rs[i].0 == rs[i - 1].1 + 1)
    && (forall i :: 0 <= i < |rs| ==> rs[i].0 <= rs[i].1)
  }

  /** One more worker, for a satisfiable range that starts right after the prefix already in
      place, extends that prefix of the resource to the end of its range. */
  lemma RangeStep(f0: seq<byte>, range: (nat, nat), pieces: seq<seq<byte>>, resource: seq<byte>, disk: Disk)
    requires Healthy(disk) && range.0 <= range.1 && range.0 < |resource|
    requires Flatten(pieces) == Clamp(resource, range)
    requires HoldsPrefix(f0, resource, range.0)
    ensures HoldsPrefix(ApplyWrites(f0, WriteTrace(range.0, pieces), disk), resource, Min(range.1 + 1, |resource|))
    ensures TotalLen(pieces) == Min(range.1 + 1, |resource|) - range.0
  {
    var p := Min(range.1 + 1, |resource|);
    var fl := Flatten(pieces);
    var r := ApplyWrites(f0, WriteTrace(range.0, pieces), disk);
    StreamLandsContiguously(f0, range.0, pieces, disk);
    PrefixExtends(f0, r, range.0, fl, resource, range.0, p);
  }

  /** Writing over a file that holds `resource[..p]` leaves that prefix alone when the write
      starts at or past `p`, whatever the disk lets through. */
  lemma WriteBeyondKeepsPrefix(f: seq<byte>, w: Write, disk: Disk, resource: seq<byte>, p: nat)
    requires HoldsPrefix(f, resource, p) && w.offset >= p
    ensures HoldsPrefix(ApplyWrite(f, w, disk), resource, p)
  {
    var r := ApplyWrite(f, w, disk);
    forall i | 0 <= i < p ensures i < |r| && r[i] == resource[i] {
      assert f[i] == f[..p][i];
    }
  }

  /** The same for a sequence of writes that all start at or past `p`. */
  lemma {:induction false} WritesBeyondKeepPrefix(f: seq<byte>, ws: seq<Write>, disk: Disk, resource: seq<byte>, p: nat)
    requires HoldsPrefix(f, resource, p)
    requires forall k :: 0 <= k < |ws| ==> ws[k].offset >= p
    ensures HoldsPrefix(ApplyWrites(f, ws, disk), resource, p)
    decreases |ws|
  {
    if |ws| > 0 {
      WritesBeyondKeepPrefix(f, ws[..|ws| - 1], disk, resource, p);
      WriteBeyondKeepsPrefix(ApplyWrites(f, ws[..|ws| - 1], disk), ws[|ws| - 1], disk, resource, p);
    }
  }

  /** A worker for an unsatisfiable range writes whatever it receives at or past the end of the
      resource, so a file that holds all of the resource still does. */
  lemma BeyondStep(f0: seq<byte>, start: nat, pieces: seq<seq<byte>>, resource: seq<byte>, disk: Disk)
    requires start >= |resource| && HoldsPrefix(f0, resource, |resource|)
    ensures HoldsPrefix(ApplyWrites(f0, WriteTrace(start, pieces), disk), resource, |resource|)
  {
    WriteTracePlacement(start, pieces);
    WritesBeyondKeepPrefix(f0, WriteTrace(start, pieces), disk, resource, |resource|);
  }

  /** An ideal server answers the ranged request for a satisfiable range with its clamped
      slice. */
  lemma IdealRange(server: Server, resource: seq<byte>, range: (nat, nat))
    requires IdealServer(server, resource) && range.0 <= range.1 && range.0 < |resource|
    ensures !RangeResponse(server, range).failed
    ensures Flatten(RangeResponse(server, range).pieces) == Clamp(resource, range)
  {
    RangeHeaderRoundTrip(range.0, range.1);
  }

  /** The server answers the request for each satisfiable range of `rs` with its clamped slice;
      nothing is assumed about its answers to the others. */
  ghost predicate ServesRanges(server: Server, resource: seq<byte>, rs: seq<(nat, nat)>) {
    forall i :: 0 <= i < |rs| && rs[i].0 <= rs[i].1 && rs[i].0 < |resource| ==>
      Flatten(RangeResponse(server, rs[i]).pieces) == Clamp(resource, rs[i])
  }

  /** An ideal server answers every satisfiable ranged request with its clamped slice. */
  lemma IdealServes(server: Server, resource: seq<byte>, rs: seq<(nat, nat)>)
    requires IdealServer(server, resource)
    ensures ServesRanges(server, resource, rs)
  {
    forall i | 0 <= i < |rs| && rs[i].0 <= rs[i].1 && rs[i].0 < |resource|
      ensures Flatten(RangeResponse(server, rs[i]).pieces) == Clamp(resource, rs[i])
    {
      IdealRange(server, resource, rs[i]);
    }
  }

  /** Dropping the last range keeps a contiguous list contiguous. */
  lemma ContiguousInit(rs: seq<(nat, nat)>)
    requires Contiguous(rs) && |rs| > 1
    ensures Contiguous(rs[..|rs| - 1])
  {
    var init := rs[..|rs| - 1];
    forall i | 0 < i < |init| ensures init[i].0 == init[i - 1].1 + 1 {
      assert init[i] == rs[i] && init[i - 1] == rs[i - 1];
    }
  }

  /** The workers for `rs` leave the resource at the front of the file up to the end of the
      last range, and receive that many bytes plus the bytes of the answers to the
      unsatisfiable ranges. */
  ghost predicate Reassembled(f: seq<byte>, rs: seq<(nat, nat)>, server: Server, resource: seq<byte>, disk: Disk)
    requires |rs| >= 1
  {
    var p := Min(rs[|rs| - 1].1 + 1, |resource|);
    HoldsPrefix(ApplyWrites(f, ChunkedTrace(rs, server), disk), resource, p)
    && ChunkedBytes(rs, server) == p + BeyondBytes(rs, server, |resource|)
  }

  /** The workers before the last one leave the resource up to where the last range starts and
      receive that many bytes plus those of the answers to the unsatisfiable ranges. */
  ghost predicate ReadyForLast(f: seq<byte>, rs: seq<(nat, nat)>, server: Server, resource: seq<byte>, disk: Disk)
    requires |rs| >= 1
  {
    var init := rs[..|rs| - 1];
    var p0 := Min(rs[|rs| - 1].0, |resource|);
    HoldsPrefix(ApplyWrites(f, ChunkedTrace(init, server), disk), resource, p0)
    && ChunkedBytes(init, server) == p0 + BeyondBytes(init, server, |resource|)
  }

  /** The last worker, for a satisfiable range, extends what the workers before it left. */
  lemma SatisfiableLast(f: seq<byte>, rs: seq<(nat, nat)>, server: Server, resource: seq<byte>, disk: Disk)
    requires Healthy(disk) && |rs| >= 1
    requires rs[|rs| - 1].0 <= rs[|rs| - 1].1 && rs[|rs| - 1].0 < |resource|
    requires Flatten(RangeResponse(server, rs[|rs| - 1]).pieces) == Clamp(resource, rs[|rs| - 1])
    requires ReadyForLast(f, rs, server, resource, disk)
    ensures Reassembled(f, rs, server, resource, disk)
  {
    var last := rs[|rs| - 1];
    var init := rs[..|rs| - 1];
    var pieces := RangeResponse(server, last).pieces;
    var f0 := ApplyWrites(f, ChunkedTrace(init, server), disk);
    ApplyWritesAppend(f, ChunkedTrace(init, server), WriteTrace(last.0, pieces), disk);
    RangeStep(f0, last, pieces, resource, disk);
  }

  /** The last worker, for an unsatisfiable range, leaves the resource in place and adds the
      bytes of its answer to the count. */
  lemma BeyondLast(f: seq<byte>, rs: seq<(nat, nat)>, server: Server, resource: seq<byte>, disk: Disk)
    requires |rs| >= 1 && rs[|rs| - 1].0 <= rs[|rs| - 1].1 && rs[|rs| - 1].0 >= |resource|
    requires ReadyForLast(f, rs, server, resource, disk)
    ensures Reassembled(f, rs, server, resource, disk)
  {
    var last := rs[|rs| - 1];
    var init := rs[..|rs| - 1];
    var pieces := RangeResponse(server, last).pieces;
    var f0 := ApplyWrites(f, ChunkedTrace(init, server), disk);
    ApplyWritesAppend(f, ChunkedTrace(init, server), WriteTrace(last.0, pieces), disk);
    BeyondStep(f0, last.0, pieces, resource, disk);
  }

  /** Ranges after the first: what the workers before the last one leave is where the last
      range starts. */
  lemma InitReachesLast(f: seq<byte>, rs: seq<(nat, nat)>, server: Server, resource: seq<byte>, disk: Disk)
    requires |rs| > 1 && Contiguous(rs)
    requires Reassembled(f, rs[..|rs| - 1], server, resource, disk)
    ensures ReadyForLast(f, rs, server, resource, disk)
  {
    var init := rs[..|rs| - 1];
    assert init[|init| - 1] == rs[|rs| - 2];
  }

  /** The server's answers for a prefix of the ranges are the ones it gives for all of them. */
  lemma ServesInit(server: Server, resource: seq<byte>, rs: seq<(nat, nat)>)
    requires |rs| >= 1 && ServesRanges(server, resource, rs)
    ensures ServesRanges(server, resource, rs[..|rs| - 1])
  {
    var init := rs[..|rs| - 1];
    forall i | 0 <= i < |init| ensures init[i] == rs[i] { }
  }

  /** Workers for contiguous ranges from 0, on a healthy disk and a server that answers the
      satisfiable ranges with their slices, leave the resource at the front of the file up to
      the end of the last range. They receive that many bytes plus the bytes of whatever the
      server answers to the unsatisfiable ranges, which land past the end of the resource. */
  lemma {:induction false} ContiguousRangesReassemble(
    f: seq<byte>, rs: seq<(nat, nat)>, server: Server, resource: seq<byte>, disk: Disk)
    requires Healthy(disk) && Contiguous(rs) && ServesRanges(server, resource, rs)
    ensures Reassembled(f, rs, server, resource, disk)
    decreases |rs|
  {
    if |rs| > 1 {
      ContiguousInit(rs);
      ServesInit(server, resource, rs);
      ContiguousRangesReassemble(f, rs[..|rs| - 1], server, resource, disk);
      InitReachesLast(f, rs, server, resource, disk);
    } else {
      assert rs[..|rs| - 1] == [];
      assert ReadyForLast(f, rs, server, resource, disk);
    }
    var last := rs[|rs| - 1];
    if last.0 < |resource| {
      SatisfiableLast(f, rs, server, resource, disk);
    } else {
      BeyondLast(f, rs, server, resource, disk);
    }
  }

  /** The chunked path, on a healthy disk and an ideal server, reproduces the resource at the
      front of the file; the counter ends at its size plus the bytes of the answers to the
      unsatisfiable ranges the planner may add at the end. */
  lemma ChunkedDownloadReassembles(f: seq<byte>, total: nat, cs: nat, server: Server, resource: seq<byte>, disk: Disk)
    requires cs >= 1 && |resource| == total
    requires Healthy(disk) && IdealServer(server, resource)
    ensures var r := ApplyWrites(f, ChunkedTrace(PlannedRanges(total, cs), server), disk);
      |r| >= total && r[..total] == resource
    ensures ChunkedBytes(PlannedRanges(total, cs), server) == total + BeyondBytes(PlannedRanges(total, cs), server, total)
  {
    var rs := PlannedRanges(total, cs);
    PlanIsContiguous(total, cs);
    IdealServes(server, resource, rs);
    ContiguousRangesReassemble(f, rs, server, resource, disk);
    PlanReachesEnd(total, cs);
  }

  /** Bytes counted beyond the resource: none when every planned range is satisfiable, which is
      when `total % cs >= 2`; otherwise at least the whole answer to the last range (for 1000
      bytes and 4 workers, whatever the server sends for `bytes=1001-1250`). */
  lemma PlanBeyondBytes(total: nat, cs: nat, server: Server)
    requires 1 <= cs <= total
    ensures var rs := PlannedRanges(total, cs);
      total % cs >= 2 ==> BeyondBytes(rs, server, total) == 0
    ensures var rs := PlannedRanges(total, cs);
      total % cs <= 1 ==> BeyondBytes(rs, server, total) >= TotalLen(RangeResponse(server, rs[|rs| - 1]).pieces)
  {
    var rs := PlannedRanges(total, cs);
    PlanLastRangeBeyond(total, cs);
    if total % cs >= 2 {
      PlanStartsWithin(total, cs);
      NothingBeyond(rs, server, total);
    }
  }

  /** When `total % cs >= 2`, every planned range starts inside the file. */
  lemma PlanStartsWithin(total: nat, cs: nat)
    requires 1 <= cs <= total && total % cs >= 2
    ensures var rs := PlannedRanges(total, cs); forall i :: 0 <= i < |rs| ==> rs[i].0 < total
  {
    var rs := PlannedRanges(total, cs);
    var q := total / cs;
    assert total == q * cs + total % cs;
    forall i | 0 <= i < |rs| ensures rs[i].0 < total {
      if i > 0 {
        MulLe(i, q, cs);
      }
    }
  }

  /** Ranges that all start inside the resource add nothing beyond it. */
  lemma {:induction false} NothingBeyond(rs: seq<(nat, nat)>, server: Server, size: nat)
    requires forall i :: 0 <= i < |rs| ==> rs[i].0 < size
    ensures BeyondBytes(rs, server, size) == 0
    decreases |rs|
  {
    if |rs| > 0 {
      NothingBeyond(rs[..|rs| - 1], server, size);
    }
  }

  /** The planned ranges are contiguous from 0. */
  lemma PlanIsContiguous(total: nat, cs: nat)
    requires cs >= 1
    ensures Contiguous(PlannedRanges(total, cs))
  {
    PlanContiguous(total, cs);
  }

  /** The last planned range reaches past the end of a file of `total` bytes. */
  lemma PlanReachesEnd(total: nat, cs: nat)
    requires cs >= 1
    ensures var rs := PlannedRanges(total, cs); Min(rs[|rs| - 1].1 + 1, total) == total
  {
    PlanShape(total, cs);
  }

  /** The plain path, on a healthy disk and an ideal server, reproduces the resource at the
      front of the file and receives exactly its size. */
  lemma PlainDownloadReassembles(f: seq<byte>, server: Server, resource: seq<byte>, disk: Disk)
    requires Healthy(disk) && IdealServer(server, resource)
    ensures var r := ApplyWrites(f, WriteTrace(0, server(None).pieces), disk);
      |r| >= |resource| && r[..|resource|] == resource
    ensures TotalLen(server(None).pieces) == |resource|
  {
    StreamLandsContiguously(f, 0, server(None).pieces, disk);
  }

  // ---------------------------------------------------------------------------------------
  // The downloader object

  class Downloader {
    const url: string
    const filesize: nat
    const savepath: string
    const supportRange: bool
    const chunkCount: u8
    /** The file at `savepath`. */
    const file: File
    /** The shared counter behind the `RwLock`: bytes received so far. */
    var progress: nat

    /** `Downloader::new` after a successful probe: the extension comes from `content-type`, the
        size from `content-length` (whose absence makes the source panic), range support from the
        presence of `Accept-Ranges`, and the counter starts at 0. */
    constructor (url: string, savepath: string, chunkCount: Option<u8>, probe: Headers, file: File)
      requires probe.contentLength.Some?
      requires ValidSavePath(savepath)
      ensures this.url == url && this.file == file
      ensures this.savepath == RewriteSavePath(savepath, ExtensionFor(probe.contentType))
      ensures filesize == probe.contentLength.value
      ensures this.chunkCount == ChunkCountOrDefault(chunkCount)
      ensures supportRange == probe.acceptRanges.Some?
      ensures progress == 0
    {
      this.url := url;
      this.file := file;
      this.savepath := RewriteSavePath(savepath, ExtensionFor(probe.contentType));
      this.filesize := probe.contentLength.value;
      this.chunkCount := ChunkCountOrDefault(chunkCount);
      this.supportRange := match probe.acceptRanges case Some(_) => true case None => false;
      this.progress := 0;
    }

    /** `downloaded_size`. */
    function DownloadedSize(): (n: nat)
      reads this
      ensures n == progress
    {
      progress
    }

    /** The loop shared by `plain_download` and `chunk_download`: each piece is written at the
        running offset, whatever the write returns (an error is only logged, a short count is
        ignored), and then its full length is added to the offset and to the counter. */
    method ReceiveBody(start: nat, body: Response) returns (offset: nat, r: Result<bool, DownloadError>)
      modifies this`progress, file
      ensures offset == start + TotalLen(body.pieces)
      ensures progress == old(progress) + TotalLen(body.pieces)
      ensures file.bytes == ApplyWrites(old(file.bytes), WriteTrace(start, body.pieces), file.disk)
      ensures r == if body.failed then Err(TransferError) else Ok(true)
    {
      var pieces := body.pieces;
      offset := start;
      var i := 0;
      while i < |pieces|
        invariant 0 <= i <= |pieces|
        invariant offset == start + TotalLen(pieces[..i])
        invariant progress == old(progress) + TotalLen(pieces[..i])
        invariant file.bytes == ApplyWrites(old(file.bytes), WriteTrace(start, pieces[..i]), file.disk)
      {
        var bytes := pieces[i];
        var len := |bytes|;
        var logged := file.WriteAt(bytes, offset);
        NextPieceLen(pieces, i);
        NextPiece(old(file.bytes), start, pieces, i, file.disk);
        offset := offset + len;
        progress := progress + len;
        i := i + 1;
      }
      assert pieces[..i] == pieces;
      r := if body.failed then Err(TransferError) else Ok(true);
    }

    /** `plain_download`: one request without a Range header, written from offset 0. */
    method PlainDownload(server: Server) returns (r: Result<bool, DownloadError>)
      modifies this`progress, file
      ensures progress == old(progress) + TotalLen(server(None).pieces)
      ensures file.bytes == ApplyWrites(old(file.bytes), WriteTrace(0, server(None).pieces), file.disk)
      ensures r == if server(None).failed then Err(TransferError) else Ok(true)
    {
      var offset;
      offset, r := ReceiveBody(0, server(None));
    }

    /** `chunk_download`: one request with `Range: bytes=start-end`, written from `start`. */
    method ChunkDownload(range: (nat, nat), server: Server) returns (r: Result<bool, DownloadError>)
      modifies this`progress, file
      ensures progress == old(progress) + TotalLen(RangeResponse(server, range).pieces)
      ensures file.bytes == ApplyWrites(old(file.bytes), WriteTrace(range.0, RangeResponse(server, range).pieces), file.disk)
      ensures r == if RangeResponse(server, range).failed then Err(TransferError) else Ok(true)
    {
      var offset;
      offset, r := ReceiveBody(range.0, server(Some(RangeHeader(range.0, range.1))));
    }

    /** `download`: nothing to do for an empty resource; the plain path without range support,
        whatever the worker count; otherwise one worker per planned range, whose results are
        discarded, so the chunked path always reports success. */
    method Download(server: Server) returns (r: Result<bool, DownloadError>)
      requires supportRange && filesize >= 1 ==> 1 <= chunkCount <= filesize
      modifies this`progress, file
      ensures filesize < 1 ==>
        r == Ok(false) && progress == old(progress) && file.bytes == old(file.bytes)
      ensures filesize >= 1 && !supportRange ==>
        r == (if server(None).failed then Err(TransferError) else Ok(true))
        && progress == old(progress) + TotalLen(server(None).pieces)
        && file.bytes == ApplyWrites(old(file.bytes), WriteTrace(0, server(None).pieces), file.disk)
      ensures filesize >= 1 && supportRange ==>
        r == Ok(true)
        && progress == old(progress) + ChunkedBytes(PlannedRanges(filesize, filesize / chunkCount), server)
        && file.bytes == ApplyWrites(old(file.bytes), ChunkedTrace(PlannedRanges(filesize, filesize / chunkCount), server), file.disk)
    {
      if filesize < 1 {
        return Ok(false);
      }
      if !supportRange {
        r := PlainDownload(server);
        return;
      }
      var ranges := PlanRanges(filesize, chunkCount);
      for j := 0 to |ranges|
        invariant progress == old(progress) + ChunkedBytes(ranges[..j], server)
        invariant file.bytes == ApplyWrites(old(file.bytes), ChunkedTrace(ranges[..j], server), file.disk)
      {
        var discarded := ChunkDownload(ranges[j], server);
        assert ranges[..j + 1][..j] == ranges[..j] && ranges[..j + 1][j] == ranges[j];
        ApplyWritesAppend(old(file.bytes), ChunkedTrace(ranges[..j], server),
          WriteTrace(ranges[j].0, RangeResponse(server, ranges[j]).pieces), file.disk);
      }
      assert ranges[..|ranges|] == ranges;
      r := Ok(true);
    }
  }
}
