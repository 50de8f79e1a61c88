/** KISS framing (lib/mesh/kiss.h): the byte-stuffing encoder and the streaming decoder. */
module Kiss {
  import opened Basics
  import opened Bytes

  const FEND: u8 := 0xC0
  const FESC: u8 := 0xDB
  const TFEND: u8 := 0xDC
  const TFESC: u8 := 0xDD
  const MAX_FRAME: nat := 801

  type Octets = seq<u8>

  // ------------------------------------------------------------------ encoder

  function Stuffed(b: u8): (s: Octets)
    ensures 1 <= |s| <= 2 && FEND !in s
  {
    if b == FEND then [FESC, TFEND] else if b == FESC then [FESC, TFESC] else [b]
  }

  function Stuff(data: Octets): Octets
  {
    if |data| == 0 then [] else Stuff(data[..|data| - 1]) + Stuffed(data[|data| - 1])
  }

  /** A whole frame on the wire; data is the command byte and the payload. */
  function Encoded(data: Octets): Octets
  {
    [FEND] + Stuff(data) + [FEND]
  }

  /** On the wire 0xC0 stands only at both ends of a frame: inside it is sent as 0xDB 0xDC,
      0xDB as 0xDB 0xDD, and every other byte as itself. */
  lemma WireBytes(data: Octets, i: nat)
    requires i < |data|
    ensures Encoded(data)[0] == 0xC0 && Encoded(data)[|Encoded(data)| - 1] == 0xC0
    ensures 0xC0 !in Encoded(data)[1..|Encoded(data)| - 1]
    ensures Stuff(data[..i + 1]) ==
            Stuff(data[..i])
            + if data[i] == 0xC0 then [0xDB, 0xDC] else if data[i] == 0xDB then [0xDB, 0xDD] else [data[i]]
  {
    StuffHasNoFend(data);
    assert Encoded(data)[1..|Encoded(data)| - 1] == Stuff(data);
    assert data[..i + 1][..i] == data[..i];
  }

  lemma {:induction false} StuffGrows(data: Octets, n: nat)
    requires n <= |data|
    ensures |Stuff(data[..n])| + (|data| - n) <= |Stuff(data)|
    decreases |data| - n
  {
    if n < |data| {
      StuffGrows(data, n + 1);
      assert data[..n + 1][..n] == data[..n];
    } else {
      assert data[..n] == data;
    }
  }

  lemma StuffNext(data: Octets, i: nat)
    requires i < |data|
    ensures Stuff(data[..i + 1]) == Stuff(data[..i]) + Stuffed(data[i])
    ensures [FEND] + Stuff(data[..i + 1]) == [FEND] + Stuff(data[..i]) + Stuffed(data[i])
    ensures 1 + |Stuff(data[..i + 1])| < |Encoded(data)|
  {
    assert data[..i + 1][..i] == data[..i];
    StuffGrows(data, i + 1);
  }

  lemma DropMore(a: Octets, b: Octets, n: nat, m: nat)
    requires n <= m <= |a| == |b| && a[n..] == b[n..]
    ensures a[m..] == b[m..]
  {
    assert a[m..] == a[n..][m - n..] && b[m..] == b[n..][m - n..];
  }

  /** One byte, escaped if need be, leaving room for the closing delimiter; 0 if none is left. */
  method PutByte(out: array<u8>, n: nat, b: u8) returns (m: nat)
    requires 1 <= n < out.Length
    modifies out
    ensures m != 0 <==> n + |Stuffed(b)| < out.Length
    ensures m != 0 ==> m == n + |Stuffed(b)| && out[..m] == old(out[..n]) + Stuffed(b)
    ensures m != 0 ==> out[m..] == old(out[m..])
  {
    if b == FEND || b == FESC {
      if n + 3 > out.Length { return 0; }
      out[n] := FESC;
      out[n + 1] := if b == FEND then TFEND else TFESC;
      m := n + 2;
    } else {
      if n + 2 > out.Length { return 0; }
      out[n] := b;
      m := n + 1;
    }
  }

  /** The encoder writes the frame when the capacity holds it and is at least four, and
      otherwise reports 0. */
  method Encode(cmd: u8, payload: Octets, out: array<u8>) returns (n: nat)
    requires out.Length < 0x1_0000
    modifies out
    ensures n != 0 <==> out.Length >= 4 && out.Length >= |Encoded([cmd] + payload)|
    ensures n != 0 ==> n == |Encoded([cmd] + payload)| && out[..n] == Encoded([cmd] + payload)
    ensures n != 0 ==> out[n..] == old(out[n..])
  {
    if out.Length < 4 { return 0; }
    ghost var data: Octets := [cmd] + payload;
    out[0] := FEND;
    n := 1;
    var i := 0;
    while i <= |payload|
      invariant 0 <= i <= |data| && 1 <= n < out.Length
      invariant out[..n] == [FEND] + Stuff(data[..i])
      invariant out[n..] == old(out[n..])
    {
      var b := if i == 0 then cmd else payload[i - 1];
      StuffNext(data, i);
      ghost var before, at := out[..], n;
      n := PutByte(out, n, b);
      if n == 0 { return; }
      DropMore(before, old(out[..]), at, n);
      i := i + 1;
    }
    assert data[..i] == data;
    ghost var body := out[..n];
    out[n] := FEND;
    n := n + 1;
    assert out[..n] == body + [FEND];
  }

  // ------------------------------------------------------------------ decoder

  datatype Dec = Dec(open: bool, esc: bool, got: Octets)

  /** One byte into the decoder; Some when it closes a frame. */
  function Step(d: Dec, b: u8): (Dec, Option<Octets>)
  {
    if b == FEND then
      if d.open && d.got != [] then (Dec(false, false, []), Some(d.got)) else (Dec(true, false, []), None)
    else if !d.open then (d, None)
    else if !d.esc && b == FESC then (d.(esc := true), None)
    else
      var v := if d.esc && b == TFEND then FEND else if d.esc && b == TFESC then FESC else b;
      if |d.got| < MAX_FRAME then (Dec(true, false, d.got + [v]), None) else (Dec(false, false, []), None)
  }

  /** Inside a frame with room, after an escape: the two codes are undone, any other byte
      is taken as it stands, and a delimiter closes what there is.  The 802nd byte drops
      the frame. */
  lemma EscapeExact(got: Octets, b: u8)
    ensures b != 0xC0 && |got| < 801 ==>
              Step(Dec(true, true, got), b) ==
              (Dec(true, false, got + [if b == 0xDC then 0xC0 else if b == 0xDD then 0xDB else b]), None)
    ensures b != 0xC0 && b != 0xDB ==>
              Step(Dec(true, false, got), b) ==
              (if |got| < 801 then Dec(true, false, got + [b]) else Dec(false, false, []), None)
    ensures Step(Dec(true, false, got), 0xDB) == (Dec(true, true, got), None)
    ensures forall d: Dec :: Step(d, 0xC0) ==
              if d.open && d.got != [] then (Dec(false, false, []), Some(d.got)) else (Dec(true, false, []), None)
  {
  }

  /** A run of bytes: where the decoder ends up and the frames it reports. */
  function Feed(d: Dec, bytes: Octets): (Dec, seq<Octets>)
    decreases |bytes|
  {
    if |bytes| == 0 then (d, [])
    else
      var (e, out) := Step(d, bytes[0]);
      var (f, outs) := Feed(e, bytes[1..]);
      (f, Reported(out) + outs)
  }

  function Reported(out: Option<Octets>): seq<Octets>
  {
    if out.Some? then [out.value] else []
  }

  lemma {:induction false} FeedAppend(d: Dec, a: Octets, b: Octets)
    ensures Feed(d, a + b) == (Feed(Feed(d, a).0, b).0, Feed(d, a).1 + Feed(Feed(d, a).0, b).1)
    decreases |a|
  {
    if |a| == 0 {
      assert a + b == b;
      assert [] + Feed(d, b).1 == Feed(d, b).1;
    } else {
      assert (a + b)[0] == a[0] && (a + b)[1..] == a[1..] + b;
      var (e, out) := Step(d, a[0]);
      var (f, outs) := Feed(e, a[1..]);
      FeedAppend(e, a[1..], b);
      assert Reported(out) + (outs + Feed(f, b).1) == (Reported(out) + outs) + Feed(f, b).1;
    }
  }

  lemma FeedThen(d: Dec, a: Octets, b: Octets, e: Dec, os: seq<Octets>, f: Dec, ps: seq<Octets>, all: seq<Octets>)
    requires Feed(d, a) == (e, os) && Feed(e, b) == (f, ps) && all == os + ps
    ensures Feed(d, a + b) == (f, all)
  {
    FeedAppend(d, a, b);
  }

  class Decoder {
    const buf: array<u8>
    var n: nat
    var ready: nat
    var open: bool
    var esc: bool

    ghost predicate Valid()
      reads this
    {
      buf.Length == MAX_FRAME && n <= MAX_FRAME && ready <= MAX_FRAME && (!open ==> n == 0)
    }

    ghost function View(): Dec
      requires Valid()
      reads this, buf
    {
      Dec(open, esc, buf[..n])
    }

    constructor ()
      ensures Valid() && View() == Dec(false, false, []) && fresh(buf)
    {
      buf := new u8[MAX_FRAME];
      n, ready, open, esc := 0, 0, false, false;
    }

    /** Returns true when the byte closed a frame, which is then the first ready bytes of buf. */
    method Take(b: u8) returns (done: bool)
      requires Valid()
      modifies this, buf
      ensures Valid()
      ensures (View(), if done then Some(buf[..ready]) else None) == Step(old(View()), b)
    {
      if b == FEND {
        if open && n > 0 {
          ready, open, n, esc := n, false, 0, false;
          return true;
        }
        open, n, esc := true, 0, false;
        return false;
      }
      if !open { return false; }
      var v := b;
      if esc {
        if b == TFEND { v := FEND; } else if b == TFESC { v := FESC; }
        esc := false;
      } else if b == FESC {
        esc := true;
        return false;
      }
      if n < MAX_FRAME {
        ghost var before := buf[..n];
        buf[n] := v;
        n := n + 1;
        assert buf[..n] == before + [v];
      } else {
        open, n := false, 0;
      }
      return false;
    }

    /** Feed a run of bytes and collect what is reported. */
    method TakeAll(bytes: Octets) returns (frames: seq<Octets>)
      requires Valid()
      modifies this, buf
      ensures Valid() && (View(), frames) == Feed(old(View()), bytes)
    {
      frames := [];
      ghost var start := View();
      for i := 0 to |bytes|
        invariant Valid() && (View(), frames) == Feed(start, bytes[..i])
      {
        ghost var before, seen := View(), frames;
        var done := Take(bytes[i]);
        if done { frames := frames + [buf[..ready]]; }
        FeedOne(before, bytes[i]);
        FeedThen(start, bytes[..i], [bytes[i]], before, seen, View(), Reported(Step(before, bytes[i]).1), frames);
        assert bytes[..i + 1] == bytes[..i] + [bytes[i]];
      }
      assert bytes[..|bytes|] == bytes;
    }
  }

  lemma FeedOne(d: Dec, b: u8)
    ensures Feed(d, [b]) == (Step(d, b).0, Reported(Step(d, b).1))
  {
    assert [b][1..] == [];
    assert Reported(Step(d, b).1) + [] == Reported(Step(d, b).1);
  }

  // ---------------------------------------------------------- inverse and resync

  /** Outside a frame everything but a delimiter is ignored. */
  lemma {:induction false} TextIgnored(d: Dec, text: Octets)
    requires !d.open && FEND !in text
    ensures Feed(d, text) == (d, [])
  {
    if |text| > 0 {
      TextIgnored(d, text[1..]);
      FeedOne(d, text[0]);
      FeedThen(d, [text[0]], text[1..], d, [], d, [], []);
      assert text == [text[0]] + text[1..];
    }
  }

  lemma {:induction false} StuffHasNoFend(data: Octets)
    ensures FEND !in Stuff(data)
  {
    if |data| > 0 { StuffHasNoFend(data[..|data| - 1]); }
  }

  lemma FeedStuffed(d: Dec, b: u8)
    requires d.open && !d.esc
    ensures Feed(d, Stuffed(b)) ==
            (if |d.got| < MAX_FRAME then Dec(true, false, d.got + [b]) else Dec(false, false, []), [])
  {
    if b == FEND || b == FESC {
      var t := Stuffed(b)[1];
      assert Stuffed(b) == [FESC] + [t];
      FeedAppend(d, [FESC], [t]);
      FeedOne(d, FESC);
      FeedOne(Step(d, FESC).0, t);
    } else {
      FeedOne(d, b);
    }
  }

  /** Inside a frame the stuffed bytes come back as they were, or the whole is dropped. */
  lemma {:induction false} FeedStuff(data: Octets)
    ensures Feed(Dec(true, false, []), Stuff(data)) ==
            (if |data| <= MAX_FRAME then Dec(true, false, data) else Dec(false, false, []), [])
  {
    if |data| > 0 {
      var m, b := data[..|data| - 1], data[|data| - 1];
      var d, shut, mid := Dec(true, false, []), Dec(false, false, []), Dec(true, false, m);
      FeedStuff(m);
      assert data == m + [b];
      if |m| <= MAX_FRAME {
        FeedStuffed(mid, b);
        FeedThen(d, Stuff(m), Stuffed(b), mid, [], if |m| < MAX_FRAME then Dec(true, false, data) else shut, [], []);
      } else {
        TextIgnored(shut, Stuffed(b));
        FeedThen(d, Stuff(m), Stuffed(b), shut, [], shut, [], []);
      }
    }
  }

  predicate Idle(d: Dec) { !d.open || d.got == [] }

  /** From idle, one frame is reported exactly, or dropped whole when it is too long. */
  lemma FeedFrame(d: Dec, data: Octets)
    requires Idle(d) && |data| > 0
    ensures Feed(d, Encoded(data)) ==
            (if |data| <= MAX_FRAME then (Dec(false, false, []), [data]) else (Dec(true, false, []), []))
  {
    var open, shut, fits := Dec(true, false, []), Dec(false, false, []), |data| <= MAX_FRAME;
    var full := if fits then Dec(true, false, data) else shut;
    FeedOne(d, FEND);
    FeedStuff(data);
    FeedThen(d, [FEND], Stuff(data), open, [], full, [], []);
    FeedOne(full, FEND);
    var out := if fits then [data] else [];
    FeedThen(d, [FEND] + Stuff(data), [FEND], full, [], if fits then shut else open, out, out);
  }

  function Wire(frames: seq<Octets>): Octets
  {
    if |frames| == 0 then [] else Encoded(frames[0]) + Wire(frames[1..])
  }

  function Fitting(frames: seq<Octets>): seq<Octets>
  {
    if |frames| == 0 then []
    else (if |frames[0]| <= MAX_FRAME then [frames[0]] else []) + Fitting(frames[1..])
  }

  /** Any run of frames is reported back in order, without those that are too long. */
  lemma {:induction false} RoundTrip(d: Dec, frames: seq<Octets>)
    requires Idle(d) && forall i :: 0 <= i < |frames| ==> |frames[i]| > 0
    ensures Feed(d, Wire(frames)).1 == Fitting(frames) && Idle(Feed(d, Wire(frames)).0)
    decreases |frames|
  {
    if |frames| > 0 {
      FeedFrame(d, frames[0]);
      FeedAppend(d, Encoded(frames[0]), Wire(frames[1..]));
      RoundTrip(Feed(d, Encoded(frames[0])).0, frames[1..]);
    }
  }

  /** Text between frames disturbs nothing once a frame that fits has closed. */
  lemma TextBetween(d: Dec, first: Octets, text: Octets, second: Octets)
    requires Idle(d) && 0 < |first| <= MAX_FRAME && 0 < |second| <= MAX_FRAME && FEND !in text
    ensures Feed(d, Encoded(first) + text + Encoded(second)) == (Dec(false, false, []), [first, second])
  {
    var shut := Dec(false, false, []);
    FeedFrame(d, first);
    TextIgnored(shut, text);
    FeedThen(d, Encoded(first), text, shut, [first], shut, [], [first]);
    FeedFrame(shut, second);
    FeedThen(d, Encoded(first) + text, Encoded(second), shut, [first], shut, [second], [first, second]);
  }

  /** Self-synchronisation: from every decoder state at all, of two frames in a row the
      second is reported exactly; the first is too unless the decoder was in mid-frame,
      and then the stale fragment is reported instead. */
  lemma Resync(d: Dec, first: Octets, second: Octets)
    requires 0 < |first| <= MAX_FRAME && 0 < |second| <= MAX_FRAME
    ensures Feed(d, Encoded(first) + Encoded(second)) ==
            (Dec(false, false, []), [if Idle(d) then first else d.got, second])
  {
    var shut, open := Dec(false, false, []), Dec(true, false, []);
    if Idle(d) {
      FeedFrame(d, first);
      FeedFrame(shut, second);
      FeedThen(d, Encoded(first), Encoded(second), shut, [first], shut, [second], [first, second]);
    } else {
      StuffHasNoFend(first);
      FeedOne(d, FEND);
      TextIgnored(shut, Stuff(first));
      FeedThen(d, [FEND], Stuff(first), shut, [d.got], shut, [], [d.got]);
      FeedOne(shut, FEND);
      FeedThen(d, [FEND] + Stuff(first), [FEND], shut, [d.got], open, [], [d.got]);
      FeedFrame(open, second);
      FeedThen(d, Encoded(first), Encoded(second), open, [d.got], shut, [second], [d.got, second]);
    }
  }
}
