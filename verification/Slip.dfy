/**
 The SLIP byte stuffing of RFC 1055, sections "PROTOCOL" and "SLIP DRIVERS", as src/slip.c
 uses it: the pure form of what the transmitter puts on the line and of what the receiver
 makes of an arbitrary byte stream.
 */
module Slip {
  import opened Bytes

  const END: byte := 0xC0
  const ESC: byte := 0xDB
  const ESC_END: byte := 0xDC
  const ESC_ESC: byte := 0xDD

  // ---------- The transmitter ----------

  function EscapeByte(b: byte): seq<byte> {
    if b == END then [ESC, ESC_END] else if b == ESC then [ESC, ESC_ESC] else [b]
  }

  function Escape(packet: seq<byte>): seq<byte> {
    if packet == [] then [] else Escape(packet[..|packet| - 1]) + EscapeByte(packet[|packet| - 1])
  }

  /** What one call of the transmitter puts on the line: END, the stuffed bytes, END. */
  function Encode(packet: seq<byte>): seq<byte> {
    [END] + Escape(packet) + [END]
  }

  function EncodeAll(packets: seq<seq<byte>>): seq<byte> {
    if packets == [] then [] else EncodeAll(packets[..|packets| - 1]) + Encode(packets[|packets| - 1])
  }

  /**
   The bytes themselves, as RFC 1055 gives them: 192 ends a packet; within it, 192 is sent as
   219 220 and 219 as 219 221, and every other byte as it is.  A byte after 219 that is
   neither 220 nor 221 is taken as it is.
   */
  lemma WireBytes(b: byte)
    ensures Encode([192, 219]) == [192, 219, 220, 219, 221, 192]
    ensures b != 192 && b != 219 ==> Encode([b]) == [192, b, 192]
    ensures Receive([219, b, 192], []) == Packet([if b == 220 then 192 else if b == 221 then 219 else b], [])
  {
    EscapeOne([192], 219);
    EscapeOne([], 192);
    EscapeOne([], b);
    var line: seq<byte> := [219, b, 192];
    assert line[2..] == [192] && Receive(line, []) == Receive([192], [Unescape(b)]);
  }

  lemma EscapeOne(packet: seq<byte>, b: byte)
    ensures Escape(packet + [b]) == Escape(packet) + EscapeByte(b)
  {
    assert (packet + [b])[..|packet|] == packet;
  }

  // ---------- The receiver ----------

  /** The byte stored after an ESC; anything but the two legal codes is kept as it is. */
  function Unescape(b: byte): byte {
    if b == ESC_END then END else if b == ESC_ESC then ESC else b
  }

  /**
   The outcome of one call of the receiver on the bytes `s` waiting on the line: it keeps
   blocking, or it returns having collected `data`, with `rest` still unread.
   */
  datatype Reception = Blocked | Packet(data: seq<byte>, rest: seq<byte>)

  /** One call of the receiver that has collected `data` so far. */
  function Receive(s: seq<byte>, data: seq<byte>): (r: Reception)
    ensures r.Packet? ==> |r.rest| < |s|
    decreases |s|
  {
    if s == [] then Blocked
    else if s[0] == END then
      if data != [] then Packet(data, s[1..]) else Receive(s[1..], data)
    else if s[0] == ESC then
      if |s| == 1 then Blocked else Receive(s[2..], data + [Unescape(s[1])])
    else Receive(s[1..], data + [s[0]])
  }

  /** What a call leaves unread is the end of what was waiting. */
  lemma {:induction false} ReceiveLeavesSuffix(s: seq<byte>, data: seq<byte>)
    requires Receive(s, data).Packet?
    ensures var rest := Receive(s, data).rest; s[|s| - |rest|..] == rest
    decreases |s|
  {
    if !(s[0] == END && data != []) {
      var width, next := Unit(s, data);
      ReceiveLeavesSuffix(s[width..], next);
    }
  }

  /** A buffer of `capacity` bytes keeps the first `capacity` bytes of a packet. */
  function Clip(data: seq<byte>, capacity: nat): seq<byte> {
    if |data| <= capacity then data else data[..capacity]
  }

  function ClipAll(packets: seq<seq<byte>>, capacity: nat): seq<seq<byte>> {
    seq(|packets|, i requires 0 <= i < |packets| => Clip(packets[i], capacity))
  }

  /** The packets that repeated calls of the receiver return before one blocks. */
  function DecodeAll(s: seq<byte>): seq<seq<byte>>
    decreases |s|
  {
    match Receive(s, [])
    case Blocked => []
    case Packet(data, rest) => [data] + DecodeAll(rest)
  }

  // ---------- The receiver, specified by its tokens ----------

  /** The units a byte stream is made of: END marks, and data bytes either plain or escaped by a pair. */
  datatype Token = EndToken | DataToken(b: byte)

  ghost function Tokens(s: seq<byte>): seq<Token>
    decreases |s|
  {
    if s == [] then []
    else if s[0] == END then [EndToken] + Tokens(s[1..])
    else if s[0] == ESC then if |s| == 1 then [] else [DataToken(Unescape(s[1]))] + Tokens(s[2..])
    else [DataToken(s[0])] + Tokens(s[1..])
  }

  /** `s` does not stop in the middle of an escape pair. */
  ghost predicate WholeTokens(s: seq<byte>)
    decreases |s|
  {
    if s == [] then true
    else if s[0] == ESC then |s| > 1 && WholeTokens(s[2..])
    else WholeTokens(s[1..])
  }

  ghost function DataTokens(data: seq<byte>): seq<Token> {
    seq(|data|, i requires 0 <= i < |data| => DataToken(data[i]))
  }

  ghost function EndTokens(n: nat): seq<Token> {
    seq(n, _ => EndToken)
  }

  /**
   The first `n` bytes of `s` are some END marks, then at least one data unit, then the
   first END mark after it; `data` is what the data units stand for.
   */
  ghost predicate FirstPacket(s: seq<byte>, n: nat, data: seq<byte>, ends: nat) {
    && n <= |s| && data != [] && WholeTokens(s[..n])
    && Tokens(s[..n]) == EndTokens(ends) + DataTokens(data) + [EndToken]
  }

  /**
   The receiver's loop returns exactly the first packet of the token reading of the stream,
   and consumes exactly the bytes up to and including its END.
   */
  lemma ReceiveIffFirstPacket(s: seq<byte>, n: nat, data: seq<byte>)
    requires n <= |s|
    ensures Receive(s, []) == Packet(data, s[n..]) <==> exists ends: nat :: FirstPacket(s, n, data, ends)
  {
    if Receive(s, []) == Packet(data, s[n..]) {
      var ends, used := ReceiveTokens(s, []);
      assert used == n && data[0..] == data;
      assert FirstPacket(s, n, data, ends);
    }
    forall ends: nat | FirstPacket(s, n, data, ends)
      ensures Receive(s, []) == Packet(data, s[n..])
    {
      TokensReceived(s, n, data, ends, []);
      assert [] + data == data;
    }
  }

  /** Collected bytes come before the data units still to be read; once there are some, END stops. */
  lemma {:induction false} ReceiveTokens(s: seq<byte>, sofar: seq<byte>) returns (ends: nat, used: nat)
    requires Receive(s, sofar).Packet?
    ensures sofar != [] ==> ends == 0
    ensures used == |s| - |Receive(s, sofar).rest|
    ensures WholeTokens(s[..used])
    ensures Receive(s, sofar).data != [] && sofar <= Receive(s, sofar).data
    ensures Tokens(s[..used]) == EndTokens(ends) + DataTokens(Receive(s, sofar).data[|sofar|..]) + [EndToken]
    decreases |s|
  {
    var r := Receive(s, sofar);
    if s[0] == END && sofar != [] {
      ends, used := 0, 1;
      TokensCons(s, 1);
      assert r.data[|sofar|..] == [];
    } else {
      var width, next := Unit(s, sofar);
      ends, used := ReceiveTokens(s[width..], next);
      used := used + width;
      TokensCons(s, used);
      if s[0] == END {
        MoreEnds(ends, r.data[|sofar|..]);
        ends := ends + 1;
      } else {
        MoreData(next[|sofar|], sofar, r.data);
      }
    }
  }

  lemma MoreEnds(ends: nat, data: seq<byte>)
    ensures EndTokens(ends + 1) + DataTokens(data) + [EndToken] ==
            [EndToken] + (EndTokens(ends) + DataTokens(data) + [EndToken])
  {
    assert EndTokens(ends + 1) == [EndToken] + EndTokens(ends);
  }

  lemma MoreData(b: byte, sofar: seq<byte>, data: seq<byte>)
    requires sofar + [b] <= data
    ensures EndTokens(0) + DataTokens(data[|sofar|..]) + [EndToken] ==
            [DataToken(b)] + (EndTokens(0) + DataTokens(data[|sofar + [b]|..]) + [EndToken])
  {
    assert data[|sofar|] == (sofar + [b])[|sofar|];
    assert DataTokens(data[|sofar|..]) == [DataToken(b)] + DataTokens(data[|sofar + [b]|..]);
  }

  /** One unit that does not end the call: its width, and the data collected after it. */
  lemma Unit(s: seq<byte>, data: seq<byte>) returns (width: nat, next: seq<byte>)
    requires s != [] && s != [ESC] && (s[0] == END ==> data == [])
    ensures width == (if s[0] == ESC then 2 else 1) <= |s|
    ensures s[0] == END ==> next == data
    ensures s[0] != END ==> next == data + [if s[0] == ESC then Unescape(s[1]) else s[0]]
    ensures Receive(s, data) == Receive(s[width..], next)
  {
    width := if s[0] == ESC then 2 else 1;
    next := if s[0] == END then data else data + [if s[0] == ESC then Unescape(s[1]) else s[0]];
  }

  /** The token reading of a prefix, one unit at a time. */
  lemma TokensCons(s: seq<byte>, n: nat)
    requires 0 < n <= |s|
    ensures s[0] != ESC ==>
              && WholeTokens(s[..n]) == WholeTokens(s[1..][..n - 1])
              && Tokens(s[..n]) == [if s[0] == END then EndToken else DataToken(s[0])] + Tokens(s[1..][..n - 1])
    ensures s[0] == ESC && n >= 2 ==>
              && WholeTokens(s[..n]) == WholeTokens(s[2..][..n - 2])
              && Tokens(s[..n]) == [DataToken(Unescape(s[1]))] + Tokens(s[2..][..n - 2])
  {
    assert s[..n][1..] == s[1..][..n - 1];
    if n >= 2 {
      assert s[..n][2..] == s[2..][..n - 2];
    }
  }

  lemma StartsWithData(tokens: seq<Token>, data: seq<byte>)
    requires tokens == EndTokens(0) + DataTokens(data) + [EndToken]
    ensures data == [] ==> tokens == [EndToken]
    ensures data != [] ==>
              && tokens[0] == DataToken(data[0])
              && tokens[1..] == EndTokens(0) + DataTokens(data[1..]) + [EndToken]
  {
    if data != [] {
      assert DataTokens(data) == [DataToken(data[0])] + DataTokens(data[1..]);
    }
  }

  lemma {:induction false} TokensReceived(s: seq<byte>, n: nat, data: seq<byte>, ends: nat, sofar: seq<byte>)
    requires n <= |s| && WholeTokens(s[..n])
    requires sofar + data != [] && (sofar != [] ==> ends == 0)
    requires Tokens(s[..n]) == EndTokens(ends) + DataTokens(data) + [EndToken]
    ensures Receive(s, sofar) == Packet(sofar + data, s[n..])
    decreases n
  {
    var tokens := Tokens(s[..n]);
    TokensCons(s, n);
    if s[0] == END {
      var rest := s[1..];
      if ends > 0 {
        assert EndTokens(ends) == [EndToken] + EndTokens(ends - 1);
        assert Tokens(rest[..n - 1]) == tokens[1..] == EndTokens(ends - 1) + DataTokens(data) + [EndToken];
        TokensReceived(rest, n - 1, data, ends - 1, sofar);
      } else {
        if data != [] {
          StartsWithData(tokens, data);
          assert false;
        }
        NoTokens(rest[..n - 1]);
        assert sofar + data == sofar;
      }
    } else {
      var width := if s[0] == ESC then 2 else 1;
      assert tokens[0].DataToken?;
      StartsWithData(tokens, data);
      assert Tokens(s[width..][..n - width]) == tokens[1..] == EndTokens(0) + DataTokens(data[1..]) + [EndToken];
      TokensReceived(s[width..], n - width, data[1..], 0, sofar + [data[0]]);
      assert sofar + [data[0]] + data[1..] == sofar + data;
    }
  }

  lemma NoTokens(s: seq<byte>)
    requires WholeTokens(s) && Tokens(s) == []
    ensures s == []
  {
  }

  // ---------- The stream as a fold over bytes ----------

  /** A receiver between two bytes: the packets returned, the data collected, and whether an ESC is pending. */
  datatype Receiver = Receiver(done: seq<seq<byte>>, current: seq<byte>, escaped: bool)

  function Step(r: Receiver, b: byte): Receiver {
    if r.escaped then Receiver(r.done, r.current + [Unescape(b)], false)
    else if b == END then
      if r.current == [] then r else Receiver(r.done + [r.current], [], false)
    else if b == ESC then r.(escaped := true)
    else r.(current := r.current + [b])
  }

  function Feed(r: Receiver, s: seq<byte>): Receiver
    decreases s
  {
    if s == [] then r else Feed(Step(r, s[0]), s[1..])
  }

  lemma {:induction false} FeedConcat(r: Receiver, s: seq<byte>, t: seq<byte>)
    ensures Feed(r, s + t) == Feed(Feed(r, s), t)
    decreases s
  {
    if s == [] {
      assert s + t == t;
    } else {
      FeedConcat(Step(r, s[0]), s[1..], t);
      assert (s + t)[1..] == s[1..] + t;
    }
  }

  lemma FeedOne(r: Receiver, b: byte)
    ensures Feed(r, [b]) == Step(r, b)
  {
    assert [b][1..] == [];
  }

  /** One call of the receiver is the fold up to the END it stops at; a call that blocks returns nothing. */
  lemma {:induction false} ReceiveIsFeed(s: seq<byte>, done: seq<seq<byte>>, data: seq<byte>)
    ensures Receive(s, data).Blocked? ==> Feed(Receiver(done, data, false), s).done == done
    ensures Receive(s, data).Packet? ==>
              var Packet(packet, rest) := Receive(s, data);
              && packet != []
              && Feed(Receiver(done, data, false), s) == Feed(Receiver(done + [packet], [], false), rest)
              && Feed(Receiver(done, data, false), s[..|s| - |rest|]) == Receiver(done + [packet], [], false)
    decreases |s|
  {
    var r := Receiver(done, data, false);
    if s == [] {
    } else if s[0] == END && data != [] {
      assert s[..1] == [END];
      FeedOne(r, END);
    } else if s[0] == ESC && |s| == 1 {
      FeedOne(r, ESC);
      assert s == [ESC];
    } else {
      var width, next := Unit(s, data);
      FeedUnit(r, s, width);
      ReceiveIsFeed(s[width..], done, next);
      if Receive(s, data).Packet? {
        var used := |s| - |Receive(s, data).rest|;
        FeedUnit(r, s[..used], width);
        assert s[..used][width..] == s[width..][..used - width];
      }
    }
  }

  /** Feeding a stream that starts with a whole unit: one byte, or the two of an escape pair. */
  lemma FeedUnit(r: Receiver, s: seq<byte>, width: nat)
    requires !r.escaped && s != [] && width == (if s[0] == ESC then 2 else 1) <= |s|
    ensures s[0] == ESC ==> Feed(r, s) == Feed(r.(current := r.current + [Unescape(s[1])]), s[width..])
    ensures s[0] != ESC ==> Feed(r, s) == Feed(Step(r, s[0]), s[width..])
  {
    if s[0] == ESC {
      assert s[1..][1..] == s[2..];
      assert Feed(r, s) == Feed(Step(Step(r, ESC), s[1]), s[2..]);
    }
  }

  /** Calling the receiver again and again returns what the fold over the whole stream completes. */
  lemma {:induction false} DecodeAllIsFeed(s: seq<byte>, done: seq<seq<byte>>)
    ensures Feed(Receiver(done, [], false), s).done == done + DecodeAll(s)
    decreases |s|
  {
    ReceiveIsFeed(s, done, []);
    match Receive(s, [])
    case Blocked =>
      assert done + [] == done;
    case Packet(data, rest) =>
      DecodeAllIsFeed(rest, done + [data]);
      assert done + [data] + DecodeAll(rest) == done + ([data] + DecodeAll(rest));
  }

  // ---------- Round trips ----------

  lemma {:induction false} FeedEscape(done: seq<seq<byte>>, current: seq<byte>, packet: seq<byte>)
    ensures Feed(Receiver(done, current, false), Escape(packet)) == Receiver(done, current + packet, false)
  {
    var r := Receiver(done, current, false);
    if packet == [] {
      assert current + packet == current;
    } else {
      var init, b := packet[..|packet| - 1], packet[|packet| - 1];
      FeedEscape(done, current, init);
      FeedConcat(r, Escape(init), EscapeByte(b));
      FeedEscapeByte(Receiver(done, current + init, false), b);
      assert current + init + [b] == current + packet;
    }
  }

  lemma FeedEscapeByte(r: Receiver, b: byte)
    requires !r.escaped
    ensures Feed(r, EscapeByte(b)) == r.(current := r.current + [b])
  {
    if b == END || b == ESC {
      FeedUnit(r, EscapeByte(b), 2);
    } else {
      FeedOne(r, b);
    }
  }

  /** What a receiver that is not inside an escape pair makes of one transmitted packet. */
  lemma FeedEncode(done: seq<seq<byte>>, current: seq<byte>, packet: seq<byte>)
    ensures Feed(Receiver(done, current, false), Encode(packet))
         == Receiver(done + NonEmpty([current]) + NonEmpty([packet]), [], false)
  {
    var r := Receiver(done, current, false);
    var started := Step(r, END);
    FeedConcat(r, [END] + Escape(packet), [END]);
    FeedConcat(r, [END], Escape(packet));
    FeedOne(r, END);
    FeedEscape(started.done, [], packet);
    FeedOne(Receiver(started.done, packet, false), END);
    assert [] + packet == packet;
    NonEmptyOne(current);
    NonEmptyOne(packet);
  }

  function NonEmpty(packets: seq<seq<byte>>): seq<seq<byte>> {
    if packets == [] then []
    else
      var rest, last := NonEmpty(packets[..|packets| - 1]), packets[|packets| - 1];
      if last == [] then rest else rest + [last]
  }

  lemma NonEmptyOne(packet: seq<byte>)
    ensures NonEmpty([packet]) == if packet == [] then [] else [packet]
  {
    assert [packet][..0] == [];
  }

  lemma {:induction false} FeedEncodeAll(packets: seq<seq<byte>>)
    ensures Feed(Receiver([], [], false), EncodeAll(packets)) == Receiver(NonEmpty(packets), [], false)
  {
    if packets != [] {
      var n := |packets| - 1;
      FeedEncodeAll(packets[..n]);
      FeedConcat(Receiver([], [], false), EncodeAll(packets[..n]), Encode(packets[n]));
      FeedEncode(NonEmpty(packets[..n]), [], packets[n]);
      NonEmptyOne([]);
      NonEmptyOne(packets[n]);
    }
  }

  /**
   Whatever was transmitted, repeated reception gives back the non-empty packets in order:
   the doubled END marks and the empty packets disappear.
   */
  lemma StreamRoundTrip(packets: seq<seq<byte>>, capacity: nat)
    requires forall p :: p in packets ==> |p| <= capacity
    ensures ClipAll(DecodeAll(EncodeAll(packets)), capacity) == NonEmpty(packets)
  {
    FeedEncodeAll(packets);
    DecodeAllIsFeed(EncodeAll(packets), []);
    assert [] + DecodeAll(EncodeAll(packets)) == DecodeAll(EncodeAll(packets));
    NonEmptyIsPart(packets);
  }

  lemma {:induction false} NonEmptyIsPart(packets: seq<seq<byte>>)
    ensures forall p :: p in NonEmpty(packets) ==> p in packets && p != []
    ensures |NonEmpty(packets)| <= |packets|
    ensures (forall p :: p in packets ==> p != []) ==> NonEmpty(packets) == packets
  {
    if packets != [] {
      var n := |packets| - 1;
      NonEmptyIsPart(packets[..n]);
      assert packets[..n] + [packets[n]] == packets;
      assert packets[n] in packets && forall p :: p in packets[..n] ==> p in packets;
    }
  }

  /** A single non-empty packet, alone on the line, is received in one call that leaves nothing behind. */
  lemma PacketRoundTrip(packet: seq<byte>)
    requires packet != []
    ensures Receive(Encode(packet), []) == Packet(packet, [])
  {
    var s := Encode(packet);
    FeedEncode([], [], packet);
    NonEmptyOne([]);
    NonEmptyOne(packet);
    ReceiveIsFeed(s, [], []);
    match Receive(s, [])
    case Blocked =>
    case Packet(data, rest) =>
      FeedGrows(Receiver([data], [], false), rest);
      assert [] + [data] == [data];
      var used := |s| - |rest|;
      if rest != [] {
        EncodePrefix([], packet, used);
      }
  }

  /** A receiver never takes back a packet it has returned. */
  lemma {:induction false} FeedGrows(r: Receiver, s: seq<byte>)
    ensures r.done <= Feed(r, s).done
    decreases s
  {
    if s != [] {
      FeedGrows(Step(r, s[0]), s[1..]);
    }
  }

  /** A proper prefix of an encoded packet completes no packet: END occurs only at its two ends. */
  lemma EncodePrefix(done: seq<seq<byte>>, packet: seq<byte>, k: nat)
    requires k < |Encode(packet)|
    ensures Feed(Receiver(done, [], false), Encode(packet)[..k]).done == done
  {
    if k > 0 {
      EndOnlyAtEnds(packet);
      NoEndNoPacket(Receiver(done, [], false), Encode(packet)[..k][1..]);
    }
  }

  lemma {:induction false} NoEndNoPacket(r: Receiver, s: seq<byte>)
    requires END !in s
    ensures Feed(r, s).done == r.done
    decreases s
  {
    if s != [] {
      NoEndNoPacket(Step(r, s[0]), s[1..]);
    }
  }

  /** END occurs in an encoding as its first and its last byte and nowhere else. */
  lemma EndOnlyAtEnds(packet: seq<byte>)
    ensures forall i :: 0 <= i < |Encode(packet)| ==>
              (Encode(packet)[i] == END <==> i == 0 || i == |Encode(packet)| - 1)
  {
    EscapeHasNoEnd(packet);
  }

  lemma {:induction false} EscapeHasNoEnd(packet: seq<byte>)
    ensures END !in Escape(packet)
  {
    if packet != [] {
      EscapeHasNoEnd(packet[..|packet| - 1]);
    }
  }

  /** The number of bytes that need an escape pair. */
  ghost function Specials(packet: seq<byte>): (n: nat)
    ensures n <= |packet|
  {
    if packet == [] then 0
    else Specials(packet[..|packet| - 1]) + if packet[|packet| - 1] in {END, ESC} then 1 else 0
  }

  /** The exact length of an encoding: two END marks and one extra byte for each escaped one. */
  lemma {:induction false} EncodedLength(packet: seq<byte>)
    ensures |Encode(packet)| == |packet| + 2 + Specials(packet) <= 2 * |packet| + 2
  {
    if packet != [] {
      EncodedLength(packet[..|packet| - 1]);
    }
  }

  /** No encoding of a non-empty packet begins another; in particular distinct packets have distinct encodings. */
  lemma EncodingIsPrefixFree(p: seq<byte>, q: seq<byte>)
    requires p != [] && q != []
    ensures Encode(p) <= Encode(q) <==> p == q
  {
    if Encode(p) <= Encode(q) {
      FeedEncode([], [], p);
      FeedEncode([], [], q);
      NonEmptyOne([]);
      NonEmptyOne(p);
      NonEmptyOne(q);
      var k := |Encode(p)|;
      assert Encode(q)[..k] == Encode(p);
      if k < |Encode(q)| {
        EncodePrefix([], q, k);
      } else {
        assert Encode(p) == Encode(q);
      }
    }
  }

  // ---------- Resynchronisation ----------

  /** A pending ESC is exactly an escape pair cut short. */
  lemma {:induction false} EscapedIffCut(r: Receiver, s: seq<byte>)
    requires !r.escaped
    ensures Feed(r, s).escaped <==> !WholeTokens(s)
    decreases |s|
  {
    if s == [] {
    } else if s == [ESC] {
      FeedOne(r, ESC);
    } else {
      var width := if s[0] == ESC then 2 else 1;
      FeedUnit(r, s, width);
      EscapedIffCut(if s[0] == ESC then r.(current := r.current + [Unescape(s[1])]) else Step(r, s[0]), s[width..]);
    }
  }

  /**
   The purpose of the leading END.  After any noise that does not stop inside an escape
   pair, a non-empty packet is received intact as the last one, after whatever the noise
   closed by an END would have produced.
   */
  lemma Resynchronises(noise: seq<byte>, packet: seq<byte>)
    requires WholeTokens(noise) && packet != []
    ensures DecodeAll(noise + Encode(packet)) == DecodeAll(noise + [END]) + [packet]
  {
    var start := Receiver([], [], false);
    var r := Feed(start, noise);
    EscapedIffCut(start, noise);
    FeedConcat(start, noise, Encode(packet));
    FeedConcat(start, noise, [END]);
    FeedOne(r, END);
    FeedEncode(r.done, r.current, packet);
    NonEmptyOne(r.current);
    NonEmptyOne(packet);
    DecodeFromStart(noise + Encode(packet));
    DecodeFromStart(noise + [END]);
  }

  lemma DecodeFromStart(s: seq<byte>)
    ensures DecodeAll(s) == Feed(Receiver([], [], false), s).done
  {
    DecodeAllIsFeed(s, []);
    assert [] + DecodeAll(s) == DecodeAll(s);
  }

  /** Noise without an END costs at most one junk packet. */
  lemma AtMostOneJunkPacket(noise: seq<byte>)
    requires END !in noise
    ensures |DecodeAll(noise + [END])| <= 1
  {
    var start := Receiver([], [], false);
    NoEndNoPacket(start, noise);
    FeedConcat(start, noise, [END]);
    FeedOne(Feed(start, noise), END);
    DecodeFromStart(noise + [END]);
  }

  /**
   The condition is exact.  With room to spare in the buffer, the last packet received is
   the transmitted one if and only if the noise does not stop inside an escape pair; if it
   does, the pair swallows the leading END and the packet is glued to the noise.
   */
  lemma ResynchronisesIff(noise: seq<byte>, packet: seq<byte>, capacity: nat)
    requires 0 < |packet| < capacity
    ensures var received := ClipAll(DecodeAll(noise + Encode(packet)), capacity);
            received != [] && (received[|received| - 1] == packet <==> WholeTokens(noise))
  {
    if WholeTokens(noise) {
      Resynchronises(noise, packet);
    } else {
      var start := Receiver([], [], false);
      var r := Feed(start, noise);
      EscapedIffCut(start, noise);
      FeedConcat(start, noise, Encode(packet));
      assert Encode(packet)[1..] == Escape(packet) + [END];
      var glued := Step(r, END);
      FeedConcat(glued, Escape(packet), [END]);
      FeedEscape(glued.done, glued.current, packet);
      FeedOne(Receiver(glued.done, glued.current + packet, false), END);
      DecodeFromStart(noise + Encode(packet));
      var all := DecodeAll(noise + Encode(packet));
      assert all[|all| - 1] == r.current + [END] + packet;
    }
  }
}
