/**
 Length-prefixed frames: four bytes of big-endian length, then the payload. The server side follows
 server/src/handler/protobuf_handler.cpp, the client side client/network_manager.cpp.
 */
module Framing {
  import opened Wrappers

  const HEADER_SIZE := 4
  const MAX_MESSAGE_SIZE := 0x10_0000
  const CLIENT_LIMIT := 10 * 1024 * 1024
  const TWO_32 := 0x1_0000_0000

  function Pow256(k: nat): nat {
    if k == 0 then 1 else 256 * Pow256(k - 1)
  }

  /** The low `k` bytes of `n`, most significant first. */
  function BigEndian(n: nat, k: nat): (b: Bytes)
    ensures |b| == k
  {
    if k == 0 then [] else BigEndian(n / 256, k - 1) + [(n % 256) as char]
  }

  /** The number that big-endian bytes stand for. */
  function Value(b: Bytes): (n: nat)
    ensures n < Pow256(|b|)
  {
    if |b| == 0 then 0 else 256 * Value(b[..|b| - 1]) + b[|b| - 1] as int
  }

  /** `ntohl` of the first four bytes. */
  function LengthField(b: Bytes): (n: nat)
    requires |b| >= HEADER_SIZE
    ensures n < TWO_32
  {
    assert Pow256(4) == TWO_32;
    Value(b[..HEADER_SIZE])
  }

  /** `htonl` of the size truncated to 32 bits, then the payload. */
  function Frame(p: Bytes): (f: Bytes)
    ensures |f| == HEADER_SIZE + |p|
  {
    BigEndian(|p|, HEADER_SIZE) + p
  }

  /** What the wire carries for a list of payloads. */
  function Wire(ps: seq<Bytes>): Bytes {
    if |ps| == 0 then [] else Frame(ps[0]) + Wire(ps[1..])
  }

  ghost predicate AllWithin(ps: seq<Bytes>, limit: nat) {
    forall i :: 0 <= i < |ps| ==> |ps[i]| <= limit
  }

  lemma {:induction false} ValueOfBigEndian(n: nat, k: nat)
    requires n < Pow256(k)
    ensures Value(BigEndian(n, k)) == n
  {
    if k > 0 {
      ValueOfBigEndian(n / 256, k - 1);
      assert BigEndian(n, k)[..k - 1] == BigEndian(n / 256, k - 1);
    }
  }

  /** Network byte order: the most significant byte goes first. */
  lemma {:induction false} NetworkOrder(n: nat)
    ensures BigEndian(n, HEADER_SIZE)
            == [(n / 0x100_0000 % 0x100) as char, (n / 0x1_0000 % 0x100) as char,
                (n / 0x100 % 0x100) as char, (n % 0x100) as char]
  {
    var n1, n2, n3 := n / 256, n / 256 / 256, n / 256 / 256 / 256;
    assert n2 == n / 0x1_0000 && n3 == n / 0x100_0000;
    assert BigEndian(n3, 1) == [] + [(n3 % 256) as char];
    assert BigEndian(n2, 2) == BigEndian(n3, 1) + [(n2 % 256) as char];
    assert BigEndian(n1, 3) == BigEndian(n2, 2) + [(n1 % 256) as char];
    assert BigEndian(n, 4) == BigEndian(n1, 3) + [(n % 256) as char];
  }

  /** A number that fits fewer bytes has a leading zero byte. */
  lemma {:induction false} LeadingZero(n: nat, k: nat)
    requires k > 0 && n < Pow256(k - 1)
    ensures BigEndian(n, k)[0] == '\0'
  {
    if k > 1 {
      LeadingZero(n / 256, k - 1);
    }
  }

  /** The length of a frame is readable from any cut of the stream that has its header. */
  lemma {:induction false} LengthRoundTrip(p: Bytes, rest: Bytes, n: nat)
    requires |p| < TWO_32 && HEADER_SIZE <= n <= |Frame(p) + rest|
    ensures LengthField((Frame(p) + rest)[..n]) == |p|
  {
    assert Pow256(4) == TWO_32;
    ValueOfBigEndian(|p|, HEADER_SIZE);
    assert (Frame(p) + rest)[..n][..HEADER_SIZE] == BigEndian(|p|, HEADER_SIZE);
  }

  /** Cutting a stream inside or after its first frame. */
  lemma {:induction false} CutFrame(p: Bytes, rest: Bytes, n: nat)
    requires |Frame(p)| <= n <= |Frame(p) + rest|
    ensures var b := (Frame(p) + rest)[..n];
            b[HEADER_SIZE..HEADER_SIZE + |p|] == p && b[|Frame(p)|..] == rest[..n - |Frame(p)|]
  {
  }

  lemma {:induction false} WireConcat(a: seq<Bytes>, b: seq<Bytes>)
    ensures Wire(a + b) == Wire(a) + Wire(b)
  {
    if |a| == 0 {
      assert a + b == b;
    } else {
      WireConcat(a[1..], b);
      calc {
        Wire(a + b);
        { assert (a + b)[1..] == a[1..] + b; }
        Frame(a[0]) + (Wire(a[1..]) + Wire(b));
        (Frame(a[0]) + Wire(a[1..])) + Wire(b);
        Wire(a) + Wire(b);
      }
    }
  }

  lemma {:induction false} WirePrefix(ps: seq<Bytes>, k: nat)
    requires k <= |ps|
    ensures Wire(ps[..k]) <= Wire(ps)
  {
    WireConcat(ps[..k], ps[k..]);
    assert ps == ps[..k] + ps[k..];
  }

  lemma {:induction false} WireCons(p: Bytes, ps: seq<Bytes>)
    ensures Wire([p] + ps) == Frame(p) + Wire(ps)
  {
  }

  lemma {:induction false} WireOne(p: Bytes)
    ensures Wire([p]) == Frame(p)
  {
  }

  // ---------- the server's decoder ----------

  datatype Outcome = NeedMore | Oversized | Payload(payload: Bytes)

  /** What one call of `TryDecodeMessage` finds at the front of the buffer. */
  function Decode(b: Bytes): Outcome {
    if |b| < HEADER_SIZE then NeedMore
    else
      var n := LengthField(b);
      if n > MAX_MESSAGE_SIZE then Oversized
      else if |b| < HEADER_SIZE + n then NeedMore
      else Payload(b[HEADER_SIZE..HEADER_SIZE + n])
  }

  /** What that call leaves in the buffer. */
  function Leftover(b: Bytes): Bytes {
    match Decode(b)
    case NeedMore => b
    case Oversized => b[HEADER_SIZE..]
    case Payload(p) => b[HEADER_SIZE + |p|..]
  }

  /** Any frame is taken off whole, whatever follows it, exactly when it respects the size limit. */
  lemma {:induction false} DecodesWholeFrame(p: Bytes, rest: Bytes)
    requires |p| < TWO_32
    ensures Decode(Frame(p) + rest) == Payload(p) && Leftover(Frame(p) + rest) == rest <==> |p| <= MAX_MESSAGE_SIZE
    ensures |p| > MAX_MESSAGE_SIZE ==> Decode(Frame(p) + rest) == Oversized && Leftover(Frame(p) + rest) == p + rest
  {
    var b := Frame(p) + rest;
    LengthRoundTrip(p, rest, |b|);
    CutFrame(p, rest, |b|);
    assert b[..|b|] == b && rest[..|rest|] == rest;
    assert b[HEADER_SIZE..] == p + rest;
  }

  /** A frame that has not fully arrived is left alone. */
  lemma {:induction false} WaitsForWholeFrame(p: Bytes, rest: Bytes, n: nat)
    requires |p| <= MAX_MESSAGE_SIZE && n < |Frame(p)|
    ensures Decode((Frame(p) + rest)[..n]) == NeedMore
  {
    if n >= HEADER_SIZE {
      LengthRoundTrip(p, rest, n);
    }
  }

  // ---------- a server connection reading a client's frames ----------

  /** `Arrive(n)`: up to `n` further bytes of the wire are read; `Process`: one call of the decoder. */
  datatype Input = Arrive(n: nat) | Process

  datatype Reader = Reader(buffer: Bytes, arrived: nat, taken: seq<Bytes>)

  function Read(wire: Bytes, r: Reader, i: Input): Reader
    requires r.arrived <= |wire|
  {
    match i
    case Arrive(n) =>
      var upto := if r.arrived + n <= |wire| then r.arrived + n else |wire|;
      Reader(r.buffer + wire[r.arrived..upto], upto, r.taken)
    case Process =>
      var d := Decode(r.buffer);
      Reader(Leftover(r.buffer), r.arrived, if d.Payload? then r.taken + [d.payload] else r.taken)
  }

  function ReadAll(wire: Bytes, inputs: seq<Input>): (r: Reader)
    ensures r.arrived <= |wire|
  {
    if |inputs| == 0 then Reader([], 0, [])
    else Read(wire, ReadAll(wire, inputs[..|inputs| - 1]), inputs[|inputs| - 1])
  }

  /** The reader has taken whole frames, in order, and holds exactly the rest of what has arrived. */
  ghost predicate InStep(ps: seq<Bytes>, r: Reader) {
    r.taken <= ps && r.arrived <= |Wire(ps)| && Wire(r.taken) + r.buffer == Wire(ps)[..r.arrived]
  }

  lemma {:induction false} ArriveKeepsStep(ps: seq<Bytes>, r: Reader, n: nat)
    requires InStep(ps, r)
    ensures InStep(ps, Read(Wire(ps), r, Arrive(n)))
  {
  }

  /** What has arrived and was not taken starts with the next frame. */
  lemma {:induction false} BufferIsRest(ps: seq<Bytes>, r: Reader)
    requires InStep(ps, r)
    ensures |r.buffer| <= |Wire(ps[|r.taken|..])| && r.buffer == Wire(ps[|r.taken|..])[..|r.buffer|]
    ensures r.arrived == |Wire(ps)| ==> r.buffer == Wire(ps[|r.taken|..])
  {
    var k := |r.taken|;
    assert ps == ps[..k] + ps[k..] && ps[..k] == r.taken;
    WireConcat(r.taken, ps[k..]);
    var w := Wire(ps);
    assert w == Wire(r.taken) + Wire(ps[k..]);
    assert w[..r.arrived][|Wire(r.taken)|..] == r.buffer;
    assert w[|Wire(r.taken)|..] == Wire(ps[k..]);
  }

  /** Taking the next frame off the buffer keeps the reader in step. */
  lemma {:induction false} TakeKeepsStep(ps: seq<Bytes>, r: Reader, after: Bytes)
    requires InStep(ps, r) && |r.taken| < |ps| && r.buffer == Frame(ps[|r.taken|]) + after
    ensures InStep(ps, Reader(after, r.arrived, r.taken + [ps[|r.taken|]]))
  {
    var p := ps[|r.taken|];
    WireConcat(r.taken, [p]);
    WireOne(p);
    assert Wire(r.taken) + (Frame(p) + after) == (Wire(r.taken) + Frame(p)) + after;
  }

  lemma {:induction false} ProcessKeepsStep(ps: seq<Bytes>, r: Reader)
    requires InStep(ps, r) && AllWithin(ps, MAX_MESSAGE_SIZE)
    ensures InStep(ps, Read(Wire(ps), r, Process))
    ensures |r.taken| < |ps| && r.arrived == |Wire(ps)| ==> |Read(Wire(ps), r, Process).taken| == |r.taken| + 1
  {
    BufferIsRest(ps, r);
    var k, n := |r.taken|, |r.buffer|;
    if k < |ps| {
      var p, rest := ps[k], Wire(ps[k..][1..]);
      assert Wire(ps[k..]) == Frame(p) + rest;
      if n < |Frame(p)| {
        WaitsForWholeFrame(p, rest, n);
      } else {
        var after := rest[..n - |Frame(p)|];
        assert r.buffer == Frame(p) + after;
        DecodesWholeFrame(p, after);
        TakeKeepsStep(ps, r, after);
      }
    }
  }

  /**
   Main theorem for incoming data: whatever the chunks and however reads and `Process` calls interleave,
   the payloads taken are a prefix of those sent and the buffer holds exactly the unread suffix.
   */
  lemma {:induction false} ServerReadsInStep(ps: seq<Bytes>, inputs: seq<Input>)
    requires AllWithin(ps, MAX_MESSAGE_SIZE)
    ensures InStep(ps, ReadAll(Wire(ps), inputs))
  {
    if |inputs| > 0 {
      var r := ReadAll(Wire(ps), inputs[..|inputs| - 1]);
      ServerReadsInStep(ps, inputs[..|inputs| - 1]);
      match inputs[|inputs| - 1]
      case Arrive(n) => ArriveKeepsStep(ps, r, n);
      case Process => ProcessKeepsStep(ps, r);
    }
  }

  /** The whole wire, then `k` calls of the decoder. */
  function ArriveThenProcess(n: nat, k: nat): seq<Input> {
    [Arrive(n)] + seq(k, _ => Process)
  }

  lemma {:induction false} OneMoreProcess(wire: Bytes, n: nat, k: nat)
    ensures ReadAll(wire, ArriveThenProcess(n, k + 1)) == Read(wire, ReadAll(wire, ArriveThenProcess(n, k)), Process)
  {
    var all := ArriveThenProcess(n, k + 1);
    assert all[..|all| - 1] == ArriveThenProcess(n, k) && all[|all| - 1] == Process;
  }

  lemma {:induction false} WholeWireArrives(wire: Bytes)
    ensures ReadAll(wire, ArriveThenProcess(|wire|, 0)) == Reader(wire, |wire|, [])
  {
    var all := ArriveThenProcess(|wire|, 0);
    assert all == [Arrive(|wire|)] && all[..0] == [];
    assert [] + wire[0..|wire|] == wire;
  }

  lemma {:induction false} WireFrom(ps: seq<Bytes>, k: nat)
    requires k < |ps|
    ensures Wire(ps[k..]) == Frame(ps[k]) + Wire(ps[k + 1..])
  {
    assert ps[k..][1..] == ps[k + 1..];
  }

  /** Frames within the limit are taken one by one, whatever comes after them. */
  lemma {:induction false} TakesLeading(ps: seq<Bytes>, k: nat)
    requires k <= |ps| && AllWithin(ps[..k], MAX_MESSAGE_SIZE)
    ensures ReadAll(Wire(ps), ArriveThenProcess(|Wire(ps)|, k)) == Reader(Wire(ps[k..]), |Wire(ps)|, ps[..k])
  {
    if k == 0 {
      WholeWireArrives(Wire(ps));
      assert ps[0..] == ps;
    } else {
      assert ps[..k][..k - 1] == ps[..k - 1] && ps[..k][k - 1] == ps[k - 1];
      TakesLeading(ps, k - 1);
      OneMoreProcess(Wire(ps), |Wire(ps)|, k - 1);
      WireFrom(ps, k - 1);
      DecodesWholeFrame(ps[k - 1], Wire(ps[k..]));
      assert ps[..k - 1] + [ps[k - 1]] == ps[..k];
    }
  }

  /** The first frame above the limit puts the reader out of step: its header is dropped and its payload stays. */
  lemma {:induction false} OversizedLosesStep(ps: seq<Bytes>, k: nat)
    requires k < |ps| && AllWithin(ps[..k], MAX_MESSAGE_SIZE) && MAX_MESSAGE_SIZE < |ps[k]| < TWO_32
    ensures !InStep(ps, ReadAll(Wire(ps), ArriveThenProcess(|Wire(ps)|, k + 1)))
  {
    TakesLeading(ps, k);
    OneMoreProcess(Wire(ps), |Wire(ps)|, k);
    WireFrom(ps, k);
    DecodesWholeFrame(ps[k], Wire(ps[k + 1..]));
    var r := ReadAll(Wire(ps), ArriveThenProcess(|Wire(ps)|, k + 1));
    WireConcat(ps[..k], ps[k..]);
    assert ps == ps[..k] + ps[k..];
    assert |Wire(r.taken) + r.buffer| == |Wire(ps)| - HEADER_SIZE;
    assert |Wire(ps)[..r.arrived]| == |Wire(ps)|;
  }

  lemma {:induction false} FirstOversized(ps: seq<Bytes>) returns (k: nat)
    requires !AllWithin(ps, MAX_MESSAGE_SIZE)
    ensures k < |ps| && AllWithin(ps[..k], MAX_MESSAGE_SIZE) && |ps[k]| > MAX_MESSAGE_SIZE
  {
    k := 0;
    while |ps[k]| <= MAX_MESSAGE_SIZE
      invariant k < |ps| && forall i :: 0 <= i < k ==> |ps[i]| <= MAX_MESSAGE_SIZE
      decreases |ps| - k
    {
      k := k + 1;
    }
  }

  /** The reader stays in step with a stream under all chunkings and schedules exactly when every frame fits. */
  lemma {:induction false} ServerReadsInStepIff(ps: seq<Bytes>)
    requires AllWithin(ps, TWO_32 - 1)
    ensures (forall inputs :: InStep(ps, ReadAll(Wire(ps), inputs))) <==> AllWithin(ps, MAX_MESSAGE_SIZE)
  {
    if AllWithin(ps, MAX_MESSAGE_SIZE) {
      forall inputs
        ensures InStep(ps, ReadAll(Wire(ps), inputs))
      {
        ServerReadsInStep(ps, inputs);
      }
    } else {
      var k := FirstOversized(ps);
      OversizedLosesStep(ps, k);
    }
  }

  /** Once all bytes have arrived, one further `Process` call per outstanding frame takes them all. */
  lemma {:induction false} ServerReadsAll(ps: seq<Bytes>, inputs: seq<Input>, n: nat)
    requires AllWithin(ps, MAX_MESSAGE_SIZE)
    requires ReadAll(Wire(ps), inputs).arrived == |Wire(ps)|
    ensures var r := ReadAll(Wire(ps), inputs + seq(n, _ => Process));
            && r.arrived == |Wire(ps)|
            && (|ReadAll(Wire(ps), inputs).taken| + n >= |ps| ==> r.taken == ps && r.buffer == [])
            && (|ReadAll(Wire(ps), inputs).taken| + n < |ps| ==> |r.taken| == |ReadAll(Wire(ps), inputs).taken| + n)
  {
    var all := inputs + seq(n, _ => Process);
    ServerReadsInStep(ps, all);
    if n == 0 {
      assert all == inputs;
    } else {
      ServerReadsAll(ps, inputs, n - 1);
      var before := inputs + seq(n - 1, _ => Process);
      assert all[..|all| - 1] == before && all[|all| - 1] == Process;
      ServerReadsInStep(ps, before);
      ProcessKeepsStep(ps, ReadAll(Wire(ps), before));
    }
    var r := ReadAll(Wire(ps), all);
    if |r.taken| == |ps| {
      assert r.taken == ps;
    }
  }

  /** The envelopes among the payloads, for any parser: one that does not parse costs only itself. */
  function Envelopes<E>(parse: Bytes -> Option<E>, ps: seq<Bytes>): seq<E> {
    if |ps| == 0 then []
    else
      Envelopes(parse, ps[..|ps| - 1]) +
      match parse(ps[|ps| - 1]) case Some(e) => [e] case None => []
  }

  lemma {:induction false} EnvelopesConcat<E>(parse: Bytes -> Option<E>, a: seq<Bytes>, b: seq<Bytes>)
    ensures Envelopes(parse, a + b) == Envelopes(parse, a) + Envelopes(parse, b)
  {
    if |b| == 0 {
      assert a + b == a;
    } else {
      EnvelopesConcat(parse, a, b[..|b| - 1]);
      assert (a + b)[..|a + b| - 1] == a + b[..|b| - 1];
    }
  }

  /** The envelopes handed to the dispatcher so far are a prefix of those that were sent. */
  lemma {:induction false} ServerSeesEnvelopesInOrder<E>(parse: Bytes -> Option<E>, ps: seq<Bytes>, inputs: seq<Input>)
    requires AllWithin(ps, MAX_MESSAGE_SIZE)
    ensures Envelopes(parse, ReadAll(Wire(ps), inputs).taken) <= Envelopes(parse, ps)
  {
    ServerReadsInStep(ps, inputs);
    var taken := ReadAll(Wire(ps), inputs).taken;
    EnvelopesConcat(parse, taken, ps[|taken|..]);
    assert ps == taken + ps[|taken|..];
  }

  // ---------- the client's reader ----------

  /** The payloads of the frames wholly contained in `b`, read front to back under a size limit. */
  function WholeFrames(b: Bytes, limit: nat): seq<Bytes>
    decreases |b|
  {
    if |b| < HEADER_SIZE || LengthField(b) > limit || |b| < HEADER_SIZE + LengthField(b) then []
    else
      var n := HEADER_SIZE + LengthField(b);
      [b[HEADER_SIZE..n]] + WholeFrames(b[n..], limit)
  }

  lemma {:induction false} FirstFrame(p: Bytes, rest: Bytes, n: nat, limit: nat)
    requires n <= |Frame(p) + rest| && |p| < TWO_32
    ensures var b := (Frame(p) + rest)[..n];
            WholeFrames(b, limit)
            == if n < |Frame(p)| || |p| > limit then [] else [p] + WholeFrames(rest[..n - |Frame(p)|], limit)
  {
    if n >= HEADER_SIZE {
      LengthRoundTrip(p, rest, n);
    }
    if n >= |Frame(p)| {
      CutFrame(p, rest, n);
    }
  }

  /**
   `got` are the first payloads of `ps`, and all those whose frames end within `n` bytes, up to the first
   payload above the limit.
   */
  ghost predicate EndWithin(ps: seq<Bytes>, n: nat, limit: nat, got: seq<Bytes>) {
    && got <= ps && |Wire(got)| <= n && AllWithin(got, limit)
    && (|got| < |ps| ==> n < |Wire(ps[..|got| + 1])| || |ps[|got|]| > limit)
  }

  lemma {:induction false} EndWithinCons(p: Bytes, ps: seq<Bytes>, n: nat, limit: nat, got: seq<Bytes>)
    requires EndWithin(ps, n, limit, got) && |p| <= limit
    ensures EndWithin([p] + ps, |Frame(p)| + n, limit, [p] + got)
  {
    WireCons(p, got);
    if |got| < |ps| {
      WireCons(p, ps[..|got| + 1]);
      assert ([p] + ps)[..|got| + 2] == [p] + ps[..|got| + 1];
    }
  }

  lemma {:induction false} EndWithinNone(p: Bytes, ps: seq<Bytes>, n: nat, limit: nat)
    requires n < |Frame(p)| || |p| > limit
    ensures EndWithin([p] + ps, n, limit, [])
  {
    assert ([p] + ps)[..1] == [p];
    WireOne(p);
  }

  /** From any prefix of a wire the reader gets exactly the frames that end inside the prefix. */
  lemma {:induction false} PrefixGivesPrefix(ps: seq<Bytes>, n: nat, limit: nat)
    requires n <= |Wire(ps)| && AllWithin(ps, TWO_32 - 1)
    ensures EndWithin(ps, n, limit, WholeFrames(Wire(ps)[..n], limit))
    decreases |ps|
  {
    if |ps| > 0 {
      var p, qs := ps[0], ps[1..];
      assert ps == [p] + qs;
      FirstFrame(p, Wire(qs), n, limit);
      if n < |Frame(p)| || |p| > limit {
        EndWithinNone(p, qs, n, limit);
      } else {
        var m := n - |Frame(p)|;
        PrefixGivesPrefix(qs, m, limit);
        EndWithinCons(p, qs, m, limit, WholeFrames(Wire(qs)[..m], limit));
      }
    }
  }

  /** The reader gets every payload of a complete wire exactly when none is above its limit. */
  lemma {:induction false} WholeWireGivesAll(ps: seq<Bytes>, limit: nat)
    requires AllWithin(ps, TWO_32 - 1)
    ensures WholeFrames(Wire(ps), limit) == ps <==> AllWithin(ps, limit)
  {
    PrefixGivesPrefix(ps, |Wire(ps)|, limit);
    assert Wire(ps)[..|Wire(ps)|] == Wire(ps);
    var k := |WholeFrames(Wire(ps), limit)|;
    WirePrefix(ps, if k < |ps| then k + 1 else k);
  }
}
