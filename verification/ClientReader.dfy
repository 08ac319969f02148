/** The frame reader of the terminal client, `NetworkManager::ListenerLoop` in client/network_manager.cpp. */
module ClientReader {
  import opened Wrappers
  import opened Framing

  // ---------- what `recv` answers ----------

  /** The answer to a call that offers room for `most` bytes of what is left: the script's, or all of them. */
  function RecvResult(script: seq<int>, most: nat): (r: nat)
    ensures r <= most
  {
    if |script| == 0 then most
    else if script[0] <= 0 then 0
    else if script[0] <= most then script[0]
    else most
  }

  function Later(script: seq<int>): seq<int> {
    if |script| == 0 then [] else script[1..]
  }

  /** Bytes received, whether a call answered `r <= 0` before all were in, and the answers to come. */
  datatype Filled = Filled(got: nat, lost: bool, script: seq<int>)

  function Least(a: nat, b: nat): nat {
    if a < b then a else b
  }

  /** The loops of lines 91-102 and 120-131 on byte counts: `want` bytes are read of `left` bytes that will come. */
  function Fill(script: seq<int>, want: nat, left: nat): Filled
    decreases want
  {
    if want == 0 then Filled(0, false, script)
    else
      var r := RecvResult(script, Least(want, left));
      if r == 0 then Filled(0, true, Later(script))
      else
        var f := Fill(Later(script), want - r, left - r);
        f.(got := r + f.got)
  }

  /** No call fails: each answers with some bytes as long as there are any. */
  predicate NeverFails(script: seq<int>) {
    forall i :: 0 <= i < |script| ==> script[i] > 0
  }

  /** Whatever the piece sizes, a loop gets all it wants unless the stream ends or a call fails. */
  lemma {:induction false} FillsUp(script: seq<int>, want: nat, left: nat)
    ensures var f := Fill(script, want, left);
            && f.got <= Least(want, left) && (f.lost <==> f.got < want)
            && (NeverFails(script) ==> f.got == Least(want, left) && NeverFails(f.script))
    decreases want
  {
    if want > 0 {
      var r := RecvResult(script, Least(want, left));
      if r > 0 {
        FillsUp(Later(script), want - r, left - r);
      }
    }
  }

  /** How the loop comes to an end; `Stopped` is another thread clearing `running_`. */
  datatype End = Going | Stopped | Lost | TooLarge

  /** The receiving half of the client's socket. */
  class Inbox {
    const stream: Bytes       // what the peer sends before it closes
    var pos: nat
    var script: seq<int>      // the results of the calls to come
    var running: Option<nat>  // how many more looks find `running_` set; none means always

    constructor (stream: Bytes, script: seq<int>, running: Option<nat>)
      ensures Valid() && pos == 0 && this.stream == stream && this.script == script && this.running == running
    {
      this.stream, this.script, this.running := stream, script, running;
      pos := 0;
    }

    ghost predicate Valid()
      reads this
    {
      pos <= |stream|
    }

    /** A look at `running_`. */
    method IsRunning() returns (yes: bool)
      modifies this`running
      ensures yes <==> old(running) != Some(0)
      ensures running == if old(running).Some? && yes then Some(old(running).value - 1) else old(running)
    {
      yes := running != Some(0);
      if running.Some? && yes {
        running := Some(running.value - 1);
      }
    }

    /** An empty result stands for `r <= 0`: the peer has closed, or the call failed. */
    method Recv(want: nat) returns (piece: Bytes)
      requires Valid()
      modifies this`pos, this`script
      ensures Valid() && |piece| == RecvResult(old(script), Least(want, |stream| - old(pos)))
      ensures script == Later(old(script)) && pos == old(pos) + |piece| && piece == stream[old(pos)..pos]
    {
      var n := RecvResult(script, Least(want, |stream| - pos));
      script := Later(script);
      piece := stream[pos..pos + n];
      pos := pos + n;
    }

    /**
     The loops of lines 91-102 and 120-131: short reads are repeated until `want` bytes are in, a call answers
     `r <= 0`, or `running_` is found cleared.
     */
    method FillTo(want: nat) returns (got: Bytes, end: End)
      requires Valid()
      modifies this
      ensures Valid() && pos == old(pos) + |got| && got == stream[old(pos)..pos] && |got| <= want
      ensures end != TooLarge && (end == Stopped ==> old(running).Some?)
      ensures old(running).None? ==> running.None?
      ensures end != Stopped ==>
                Filled(|got|, end == Lost, script) == Fill(old(script), want, |stream| - old(pos))
    {
      got, end := [], Going;
      ghost var goal, size := Fill(script, want, |stream| - pos), |stream| - pos;
      while |got| < want
        invariant Valid() && |got| <= want && |stream| - pos == size - |got|
        invariant pos == old(pos) + |got| && got == stream[old(pos)..pos]
        invariant old(running).None? ==> running.None?
        invariant var f := Fill(script, want - |got|, size - |got|); goal == f.(got := |got| + f.got)
        decreases want - |got|
      {
        var yes := IsRunning();
        if !yes {
          return got, Stopped;
        }
        var piece := Recv(want - |got|);
        if |piece| == 0 {
          return got, Lost;
        }
        got := got + piece;
      }
    }

    /** The same in terms of what the caller sees, with the look at `running_` that follows. */
    method Receive(want: nat) returns (got: Bytes, end: End)
      requires Valid()
      modifies this
      ensures Valid() && pos == old(pos) + |got| && got == stream[old(pos)..pos]
      ensures end != TooLarge && (end == Stopped ==> old(running).Some?) && (old(running).None? ==> running.None?)
      ensures end == Going ==> |got| == want
      ensures end == Lost ==> |got| < want
      ensures NeverFails(old(script)) && end != Stopped ==> NeverFails(script) && (end == Lost ==> pos == |stream|)
    {
      FillsUp(script, want, |stream| - pos);
      got, end := FillTo(want);
      if end == Going {
        var yes := IsRunning();
        if !yes {
          end := Stopped;
        }
      }
    }
  }

  /** One round of the loop: a header, then as many bytes as it announces. */
  method ReadFrame(inbox: Inbox) returns (payload: Bytes, end: End)
    requires inbox.Valid()
    modifies inbox
    ensures inbox.Valid() && inbox.pos >= old(inbox.pos)
    ensures old(inbox.running).None? ==> inbox.running.None? && end != Stopped
    ensures var rest, read := inbox.stream[old(inbox.pos)..], inbox.pos - old(inbox.pos);
            match end
            case Going =>
              && |rest| >= HEADER_SIZE && LengthField(rest) == |payload| <= CLIENT_LIMIT
              && read == HEADER_SIZE + |payload| && payload == rest[HEADER_SIZE..HEADER_SIZE + |payload|]
            case TooLarge => |rest| >= HEADER_SIZE && LengthField(rest) > CLIENT_LIMIT && read == HEADER_SIZE
            case Lost =>
              read < HEADER_SIZE || (LengthField(rest) <= CLIENT_LIMIT && read < HEADER_SIZE + LengthField(rest))
            case Stopped => true
    ensures NeverFails(old(inbox.script)) && end != Stopped ==>
              NeverFails(inbox.script) && (end == Lost ==> inbox.pos == |inbox.stream|)
  {
    ghost var stream, pos := inbox.stream, inbox.pos;
    payload := [];
    var header;
    header, end := inbox.Receive(HEADER_SIZE);
    if end != Going {
      return;
    }
    assert header[..HEADER_SIZE] == stream[pos..][..HEADER_SIZE];
    var msgLen := LengthField(header);
    if msgLen > CLIENT_LIMIT {
      return [], TooLarge;
    }
    payload, end := inbox.Receive(msgLen);
    assert payload == stream[pos..][HEADER_SIZE..HEADER_SIZE + |payload|];
  }

  /** Cutting a stream after its first frame, or inside it. */
  lemma {:induction false} CutWhole(b: Bytes, n: nat)
    requires n <= |b|
    ensures |b| >= HEADER_SIZE && LengthField(b) <= CLIENT_LIMIT && HEADER_SIZE + LengthField(b) <= n ==>
              var size := HEADER_SIZE + LengthField(b);
              WholeFrames(b[..n], CLIENT_LIMIT) == [b[HEADER_SIZE..size]] + WholeFrames(b[size..n], CLIENT_LIMIT)
    ensures n < HEADER_SIZE || LengthField(b) > CLIENT_LIMIT || n < HEADER_SIZE + LengthField(b) ==>
              WholeFrames(b[..n], CLIENT_LIMIT) == []
  {
    var c := b[..n];
    if n >= HEADER_SIZE {
      assert c[..HEADER_SIZE] == b[..HEADER_SIZE];
      var size := HEADER_SIZE + LengthField(b);
      if size <= n {
        assert c[HEADER_SIZE..size] == b[HEADER_SIZE..size] && c[size..] == b[size..n];
      }
    }
  }

  /** However much of the stream is read, its whole frames are those handed on and those from `pos` on. */
  ghost predicate HandedOn(stream: Bytes, pos: nat, got: seq<Bytes>) {
    && pos <= |stream|
    && forall n :: pos <= n <= |stream| ==>
         WholeFrames(stream[..n], CLIENT_LIMIT) == got + WholeFrames(stream[pos..n], CLIENT_LIMIT)
  }

  /** The first frame of what is left, seen from any cut behind it. */
  lemma {:induction false} NextFrame(stream: Bytes, pos: nat, size: nat, n: nat)
    requires pos + HEADER_SIZE <= |stream| && size == HEADER_SIZE + LengthField(stream[pos..])
    requires size <= HEADER_SIZE + CLIENT_LIMIT && pos + size <= n <= |stream|
    ensures WholeFrames(stream[pos..n], CLIENT_LIMIT)
            == [stream[pos..][HEADER_SIZE..size]] + WholeFrames(stream[pos + size..n], CLIENT_LIMIT)
  {
    var rest := stream[pos..];
    CutWhole(rest, n - pos);
    assert rest[..n - pos] == stream[pos..n];
    assert rest[size..n - pos] == stream[pos + size..n];
  }

  lemma {:induction false} OneMore(stream: Bytes, pos: nat, got: seq<Bytes>, payload: Bytes)
    requires HandedOn(stream, pos, got) && |stream[pos..]| >= HEADER_SIZE
    requires LengthField(stream[pos..]) == |payload| <= CLIENT_LIMIT && pos + HEADER_SIZE + |payload| <= |stream|
    requires payload == stream[pos..][HEADER_SIZE..HEADER_SIZE + |payload|]
    ensures HandedOn(stream, pos + HEADER_SIZE + |payload|, got + [payload])
  {
    var size := HEADER_SIZE + |payload|;
    forall n | pos + size <= n <= |stream|
      ensures WholeFrames(stream[..n], CLIENT_LIMIT)
              == (got + [payload]) + WholeFrames(stream[pos + size..n], CLIENT_LIMIT)
    {
      NextFrame(stream, pos, size, n);
    }
  }

  lemma {:induction false} NothingMore(stream: Bytes, pos: nat, got: seq<Bytes>, n: nat)
    requires HandedOn(stream, pos, got) && pos <= n <= |stream|
    requires n - pos < HEADER_SIZE || LengthField(stream[pos..]) > CLIENT_LIMIT
             || n - pos < HEADER_SIZE + LengthField(stream[pos..])
    ensures WholeFrames(stream[..n], CLIENT_LIMIT) == got
  {
    CutWhole(stream[pos..], n - pos);
    assert stream[pos..][..n - pos] == stream[pos..n];
  }

  lemma {:induction false} PrefixSoFar(stream: Bytes, pos: nat, got: seq<Bytes>)
    requires HandedOn(stream, pos, got)
    ensures got <= WholeFrames(stream, CLIENT_LIMIT)
  {
    assert stream[..|stream|] == stream;
  }

  /** What the loop has to show when it ends after `pos` bytes of the stream. */
  ghost predicate Ends(stream: Bytes, pos: nat, got: seq<Bytes>, end: End, sound: bool) {
    && pos <= |stream| && end != Going && got <= WholeFrames(stream, CLIENT_LIMIT)
    && (end != Stopped ==> got == WholeFrames(stream[..pos], CLIENT_LIMIT))
    && (end != Stopped && (sound || end == TooLarge) ==> got == WholeFrames(stream, CLIENT_LIMIT))
  }

  lemma {:induction false} EndsHere(stream: Bytes, pos: nat, got: seq<Bytes>, n: nat, end: End, sound: bool)
    requires HandedOn(stream, pos, got) && pos <= n <= |stream| && end != Going
    requires end == Lost ==> n - pos < HEADER_SIZE || n - pos < HEADER_SIZE + LengthField(stream[pos..])
    requires end == TooLarge ==> n - pos == HEADER_SIZE && LengthField(stream[pos..]) > CLIENT_LIMIT
    requires sound && end == Lost ==> n == |stream|
    ensures Ends(stream, n, got, end, sound)
  {
    PrefixSoFar(stream, pos, got);
    assert stream[..|stream|] == stream;
    if end != Stopped {
      NothingMore(stream, pos, got, n);
    }
    if end == TooLarge {
      NothingMore(stream, pos, got, |stream|);
    }
  }

  /** One round of the loop: a payload more, or the end. */
  method ReadOn(inbox: Inbox, got: seq<Bytes>) returns (more: seq<Bytes>, end: End)
    requires inbox.Valid() && HandedOn(inbox.stream, inbox.pos, got)
    modifies inbox
    ensures inbox.Valid() && (old(inbox.running).None? ==> inbox.running.None? && end != Stopped)
    ensures end == Going ==> inbox.pos > old(inbox.pos) && HandedOn(inbox.stream, inbox.pos, more)
    ensures end == Going && NeverFails(old(inbox.script)) ==> NeverFails(inbox.script)
    ensures end != Going ==> Ends(inbox.stream, inbox.pos, more, end, NeverFails(old(inbox.script)))
  {
    ghost var stream, pos, sound := inbox.stream, inbox.pos, NeverFails(inbox.script);
    var yes := inbox.IsRunning();
    if !yes {
      EndsHere(stream, pos, got, pos, Stopped, sound);
      return got, Stopped;
    }
    var payload;
    payload, end := ReadFrame(inbox);
    if end == Going {
      OneMore(stream, pos, got, payload);
      more := got + [payload];
    } else {
      EndsHere(stream, pos, got, inbox.pos, end, sound);
      more := got;
    }
  }

  /**
   Whatever the sizes of the pieces, and whenever the loop is stopped or the connection is lost, the payloads
   handed on are the first whole frames of the stream. Unless it is stopped they are all that the bytes read
   contain; and if no call fails, all that the stream contains.
   */
  method ListenerLoop(inbox: Inbox) returns (got: seq<Bytes>, end: End)
    requires inbox.Valid() && inbox.pos == 0
    modifies inbox
    ensures inbox.Valid() && end != Going && (old(inbox.running).None? ==> end != Stopped)
    ensures got <= WholeFrames(inbox.stream, CLIENT_LIMIT)
    ensures end != Stopped ==> got == WholeFrames(inbox.stream[..inbox.pos], CLIENT_LIMIT)
    ensures end != Stopped && (NeverFails(old(inbox.script)) || end == TooLarge) ==>
              got == WholeFrames(inbox.stream, CLIENT_LIMIT)
  {
    ghost var always, sound := inbox.running.None?, NeverFails(inbox.script);
    got, end := [], Going;
    while end == Going
      invariant inbox.Valid() && (always ==> inbox.running.None? && end != Stopped)
      invariant end == Going ==> HandedOn(inbox.stream, inbox.pos, got) && (sound ==> NeverFails(inbox.script))
      invariant end != Going ==> Ends(inbox.stream, inbox.pos, got, end, sound)
      decreases end == Going, |inbox.stream| - inbox.pos
    {
      got, end := ReadOn(inbox, got);
    }
  }
}
