/** The PS/2 mouse decoder: a byte at a time, against a batch decoder of the whole byte stream. */
module Mouse {
  import opened Util

  datatype Packet = Packet(flags: u8, x: u8, y: u8)

  datatype Cursor = Cursor(x: int, y: int, state: int)

  const LEFT_CLICK := 1
  const MIDDLE_CLICK := 2
  const RIGHT_CLICK := 3

  predicate Bit(b: u8, weight: nat)
    requires weight > 0
  {
    b / weight % 2 == 1
  }

  // ---------- one packet ----------

  /** The largest coordinate: the size less one in 32-bit unsigned arithmetic. */
  function Limit(size: u32): int { if size == 0 then TWO_32 - 1 else size - 1 }

  function Clamp(v: int, size: u32): int {
    var w := if v < 1 then 1 else v;
    if w > Limit(size) then Limit(size) else w
  }

  /** The movement along one axis: a byte, its sign bit and its overflow bit. */
  function Movement(b: u8, negative: bool, overflow: bool): int {
    var m := if negative then (256 - b) % 256 else b;
    var d := if overflow then m + 255 else m;
    if negative then -d else d
  }

  /** Sign bit and byte as a nine-bit two's complement number. */
  function NineBit(b: u8, negative: bool): int { b - if negative then 256 else 0 }

  /** That number, moved 255 further the same way on overflow, is what is added, except at -256. */
  lemma MovementIsNineBit(b: u8, negative: bool, overflow: bool)
    ensures Movement(b, negative, overflow)
      == NineBit(b, negative) + (if !overflow then 0 else if negative then -255 else 255)
      <==> !(negative && b == 0)
  {}

  /** The failing case: a movement of -256 is decoded as none. */
  lemma FarthestLost()
    ensures NineBit(0, true) == -256 && Movement(0, true, false) == 0
  {}

  function Buttons(flags: u8): int {
    if Bit(flags, 1) then LEFT_CLICK
    else if Bit(flags, 4) then MIDDLE_CLICK
    else if Bit(flags, 2) then RIGHT_CLICK
    else 0
  }

  /** The cursor after one packet; upward movement lowers y. */
  function Moved(c: Cursor, p: Packet, width: u32, height: u32): Cursor {
    Cursor(Clamp(c.x + Movement(p.x, Bit(p.flags, 16), Bit(p.flags, 64)), width),
           Clamp(c.y - Movement(p.y, Bit(p.flags, 32), Bit(p.flags, 128)), height),
           Buttons(p.flags))
  }

  // ---------- what a packet means ----------

  function Away(a: int, b: int): nat { if a < b then b - a else a - b }

  /** The coordinate of a screen of some size, first row or column excluded, that is nearest to a target. */
  ghost predicate NearestInside(v: int, target: int, size: int) {
    && 1 <= v <= size - 1
    && forall w :: 1 <= w <= size - 1 ==> Away(v, target) <= Away(w, target)
  }

  /** Each coordinate goes as near to the old one plus the movement as the screen allows; inside it, exactly there. */
  lemma MovedNearest(c: Cursor, p: Packet, width: u32, height: u32)
    requires width >= 2 && height >= 2
    ensures var r := Moved(c, p, width, height);
      var (x, y) := (c.x + Movement(p.x, Bit(p.flags, 16), Bit(p.flags, 64)),
                     c.y - Movement(p.y, Bit(p.flags, 32), Bit(p.flags, 128)));
      && NearestInside(r.x, x, width) && NearestInside(r.y, y, height)
      && (1 <= x <= width - 1 ==> r.x == x) && (1 <= y <= height - 1 ==> r.y == y)
  {
    hide Bit, Movement;
    ClampNearest(c.x + Movement(p.x, Bit(p.flags, 16), Bit(p.flags, 64)), width);
    ClampNearest(c.y - Movement(p.y, Bit(p.flags, 32), Bit(p.flags, 128)), height);
  }

  lemma ClampNearest(target: int, size: u32)
    requires size >= 2
    ensures NearestInside(Clamp(target, size), target, size)
    ensures 1 <= target <= size - 1 ==> Clamp(target, size) == target
  {}

  /** A screen of one row or column pins the coordinate to zero; a size of zero counts as 2^32. */
  lemma ClampTiny(target: int)
    ensures Clamp(target, 1) == 0 && NearestInside(Clamp(target, 0), target, TWO_32)
  {}

  /** What the mouse sends for a movement to the right and up, with its buttons. */
  function Sent(dx: int, dy: int, left: bool, middle: bool, right: bool): Packet
    requires -256 < dx < 256 && -256 < dy < 256
  {
    Packet(8 + (if left then 1 else 0) + (if right then 2 else 0) + (if middle then 4 else 0)
             + (if dx < 0 then 16 else 0) + (if dy < 0 then 32 else 0),
           dx % 256, dy % 256)
  }

  lemma SentBits(dx: int, dy: int, left: bool, middle: bool, right: bool)
    requires -256 < dx < 256 && -256 < dy < 256
    ensures var flags := Sent(dx, dy, left, middle, right).flags;
      && Bit(flags, 1) == left && Bit(flags, 2) == right && Bit(flags, 4) == middle && Bit(flags, 8)
      && Bit(flags, 16) == (dx < 0) && Bit(flags, 32) == (dy < 0) && !Bit(flags, 64) && !Bit(flags, 128)
  {}

  lemma SentMovement(d: int)
    requires -256 < d < 256
    ensures Movement(d % 256, d < 0, false) == d
  {}

  /**
   Main result: a packet sent for a movement moves the cursor that far right and up, or to the nearest place
   on the screen, and the state is 1, 2 or 3 for the left, middle or right button, in that order.
   */
  lemma SentMoves(c: Cursor, dx: int, dy: int, left: bool, middle: bool, right: bool, width: u32, height: u32)
    requires -256 < dx < 256 && -256 < dy < 256 && width >= 2 && height >= 2
    ensures var r := Moved(c, Sent(dx, dy, left, middle, right), width, height);
      && NearestInside(r.x, c.x + dx, width) && NearestInside(r.y, c.y - dy, height)
      && r.state == if left then 1 else if middle then 2 else if right then 3 else 0
  {
    SentBits(dx, dy, left, middle, right);
    SentMovement(dx);
    SentMovement(dy);
    hide Bit, Movement, NearestInside;
    MovedNearest(c, Sent(dx, dy, left, middle, right), width, height);
  }

  function MovedAll(c: Cursor, ps: seq<Packet>, width: u32, height: u32): Cursor {
    if ps == [] then c else Moved(MovedAll(c, ps[..|ps| - 1], width, height), ps[|ps| - 1], width, height)
  }

  /** On a screen with more than one row and column the cursor stays inside it, off the first row and column. */
  lemma {:induction false} CursorInside(c: Cursor, ps: seq<Packet>, width: u32, height: u32)
    requires width >= 2 && height >= 2 && ps != []
    ensures var r := MovedAll(c, ps, width, height); 1 <= r.x < width && 1 <= r.y < height
  {}

  // ---------- the batch decoder ----------

  /** Whole packets of a byte stream: bytes without bit 3 are skipped where a packet would start. */
  function Packets(bs: seq<u8>): seq<Packet> {
    if bs == [] then []
    else if !Bit(bs[0], 8) then Packets(bs[1..])
    else if |bs| < 3 then []
    else [Packet(bs[0], bs[1], bs[2])] + Packets(bs[3..])
  }

  /** The bytes of the packet still incomplete at the end. */
  function Pending(bs: seq<u8>): (r: seq<u8>)
    ensures |r| <= 2
  {
    if bs == [] then []
    else if !Bit(bs[0], 8) then Pending(bs[1..])
    else if |bs| < 3 then bs
    else Pending(bs[3..])
  }

  /** One more byte. */
  lemma {:induction false} OneMore(bs: seq<u8>, b: u8)
    ensures var pending := Pending(bs);
      && Packets(bs + [b]) == Packets(bs) + (if |pending| == 2 then [Packet(pending[0], pending[1], b)] else [])
      && Pending(bs + [b]) == if |pending| == 2 || (pending == [] && !Bit(b, 8)) then [] else pending + [b]
  {
    var all := bs + [b];
    if bs == [] {
      assert all == [b] && all[1..] == [];
    } else if !Bit(bs[0], 8) {
      assert all[1..] == bs[1..] + [b];
      OneMore(bs[1..], b);
    } else if |bs| < 3 {
      if |bs| == 2 { assert all[3..] == []; }
    } else {
      assert all[3..] == bs[3..] + [b];
      OneMore(bs[3..], b);
    }
  }

  /** The bytes of some packets, in the order they are sent. */
  function ByteStream(ps: seq<Packet>): seq<u8> {
    if ps == [] then [] else [ps[0].flags, ps[0].x, ps[0].y] + ByteStream(ps[1..])
  }

  /** A stream of sent packets is decoded to those packets; nothing is pending after it. */
  lemma {:induction false} StreamDecodes(ps: seq<Packet>)
    requires forall k :: 0 <= k < |ps| ==> Bit(ps[k].flags, 8)
    ensures Packets(ByteStream(ps)) == ps && Pending(ByteStream(ps)) == []
  {
    if ps != [] {
      var bs := ByteStream(ps);
      assert bs[3..] == ByteStream(ps[1..]) && bs[0] == ps[0].flags && bs[1] == ps[0].x && bs[2] == ps[0].y;
      StreamDecodes(ps[1..]);
    }
  }

  /** What the driver keeps, as values. */
  datatype State = State(home: Cursor, width: u32, height: u32, cycle: nat, packet: seq<u8>, ready: bool,
    cursor: Cursor)

  /** The cursor follows all whole packets of a byte stream but one that was completed by the very last byte. */
  ghost predicate Tracks(body: seq<u8>, s: State) {
    var ps := Packets(body);
    && |s.packet| == 4 && s.cycle == |Pending(body)| && s.packet[..s.cycle] == Pending(body)
    && (s.ready ==> s.cycle == 0 && ps != [] && ps[|ps| - 1] == Packet(s.packet[0], s.packet[1], s.packet[2]))
    && s.cursor == MovedAll(s.home, if s.ready then ps[..|ps| - 1] else ps, s.width, s.height)
  }

  /** A byte without bit 3 where a packet would start is dropped. */
  lemma ByteSkipped(body: seq<u8>, b: u8, s: State)
    requires Tracks(body, s) && !s.ready && s.cycle == 0 && !Bit(b, 8)
    ensures Tracks(body + [b], s) && Packets(body + [b]) == Packets(body)
  {
    OneMore(body, b);
    assert Packets(body) + [] == Packets(body);
  }

  /** A byte that starts or continues a packet. */
  lemma ByteCollected(body: seq<u8>, b: u8, s: State)
    requires Tracks(body, s) && !s.ready && s.cycle < 2 && (s.cycle == 0 ==> Bit(b, 8))
    ensures Tracks(body + [b], s.(cycle := s.cycle + 1, packet := s.packet[s.cycle := b]))
    ensures Packets(body + [b]) == Packets(body)
  {
    OneMore(body, b);
    assert Packets(body) + [] == Packets(body);
    assert s.packet[s.cycle := b][..s.cycle + 1] == s.packet[..s.cycle] + [b];
  }

  lemma CycleBound(body: seq<u8>, s: State)
    requires Tracks(body, s)
    ensures s.cycle <= 2
  {}

  /** A byte that completes one. */
  lemma ByteCompletes(body: seq<u8>, b: u8, s: State)
    requires Tracks(body, s) && !s.ready && s.cycle == 2
    ensures Tracks(body + [b], s.(cycle := 0, packet := s.packet[2 := b], ready := true))
    ensures |Packets(body + [b])| == |Packets(body)| + 1
  {
    OneMore(body, b);
    var done, pending := Packets(body), Pending(body);
    assert pending[0] == s.packet[..2][0] && pending[1] == s.packet[..2][1];
    assert (done + [Packet(pending[0], pending[1], b)])[..|done|] == done;
  }

  // ---------- the driver ----------

  class Driver {
    const width: u32
    const height: u32
    const packet: array<u8>
    var skip: bool
    var cycle: nat
    var ready: bool
    var cursor: Cursor
    /** `KiCursorPosX` and `KiCursorPosY` */
    var posX: int
    var posY: int
    ghost const home: Cursor
    /** Every byte received. */
    ghost var input: seq<u8>

    /** The bytes the decoder looks at. */
    ghost function Body(): seq<u8>
      reads this
    {
      if input == [] then [] else input[1..]
    }

    ghost predicate Valid()
      reads this, packet
    {
      packet.Length == 4 && skip == (input == [])
      && Tracks(Body(), State(home, width, height, cycle, packet[..], ready, cursor))
    }

    constructor (width: u32, height: u32)
      ensures Valid() && fresh(packet) && input == [] && !ready && cycle == 0
      ensures this.width == width && this.height == height && cursor == home == Cursor(0, 0, 0)
    {
      this.width := width;
      this.height := height;
      packet := new u8[4](_ => 0);
      skip := true;
      cycle := 0;
      ready := false;
      cursor := Cursor(0, 0, 0);
      home := Cursor(0, 0, 0);
      posX, posY := 0, 0;
      input := [];
    }

    /** Apply a whole packet, if there is one. */
    method Process()
      requires Valid()
      modifies this`ready, this`cursor, this`posX, this`posY, packet
      ensures Valid() && !ready
      ensures old(ready) ==> posX == cursor.x && posY == cursor.y
    {
      if !ready {
        return;
      }
      ghost var ps := Packets(Body());
      ghost var p := Packet(packet[0], packet[1], packet[2]);
      var x, y := Translate();
      if x < 1 { x := 1; }
      if x > Limit(width) { x := Limit(width); }
      if y < 1 { y := 1; }
      if y > Limit(height) { y := Limit(height); }
      var state := Buttons(packet[0]);
      assert Cursor(x, y, state) == Moved(cursor, p, width, height);
      cursor := Cursor(x, y, state);
      ready := false;
      posX, posY := cursor.x, cursor.y;
    }

    /** The coordinates a packet moves the cursor to, before clamping; negative bytes are complemented in place. */
    method Translate() returns (x: int, y: int)
      requires packet.Length == 4
      modifies packet
      ensures packet[0] == old(packet[0])
      ensures x == cursor.x + Movement(old(packet[1]), Bit(packet[0], 16), Bit(packet[0], 64))
      ensures y == cursor.y - Movement(old(packet[2]), Bit(packet[0], 32), Bit(packet[0], 128))
    {
      hide Bit;
      x, y := cursor.x, cursor.y;
      var xNegative, yNegative := Bit(packet[0], 16), Bit(packet[0], 32);
      var xOverflow, yOverflow := Bit(packet[0], 64), Bit(packet[0], 128);
      if !xNegative {
        x := x + packet[1];
        if xOverflow { x := x + 255; }
      } else {
        var magnitude: int := packet[1];
        packet[1] := (256 - magnitude) % 256;
        x := x - packet[1];
        if xOverflow { x := x - 255; }
      }
      if !yNegative {
        y := y - packet[2];
        if yOverflow { y := y - 255; }
      } else {
        var magnitude: int := packet[2];
        packet[2] := (256 - magnitude) % 256;
        y := y + packet[2];
        if yOverflow { y := y + 255; }
      }
    }

    /** One byte of a packet, with no finished packet waiting. */
    method Collect(data: u8)
      requires Valid() && !ready && input != []
      modifies this`cycle, this`ready, this`input, packet
      ensures Valid() && input == old(input) + [data]
      ensures ready <==> |Packets(Body())| > |Packets(old(Body()))|
    {
      ghost var body, before := Body(), State(home, width, height, cycle, packet[..], ready, cursor);
      input := input + [data];
      assert Body() == body + [data];
      hide Tracks, Packets, Bit;
      match cycle {
        case 0 =>
          if !ready && Bit(data, 8) {
            ByteCollected(body, data, before);
            packet[0] := data;
            cycle := cycle + 1;
          } else {
            ByteSkipped(body, data, before);
          }
        case 1 =>
          if !ready {
            ByteCollected(body, data, before);
            packet[1] := data;
            cycle := cycle + 1;
          }
        case _ =>
          CycleBound(body, before);
          if !ready {
            ByteCompletes(body, data, before);
            packet[2] := data;
            ready := true;
            cycle := 0;
          }
      }
    }

    /**
     Main result: the cursor is the batch decoder's, folded over the packets complete before this byte;
     the byte itself only joins the packet being collected.
     */
    method Handle(data: u8)
      requires Valid()
      modifies this`skip, this`cycle, this`ready, this`cursor, this`posX, this`posY, this`input, packet
      ensures Valid() && input == old(input) + [data]
      ensures cursor == MovedAll(home, Packets(old(Body())), width, height)
      ensures cycle <= 2 && (ready ==> cycle == 0)
      ensures ready <==> |Packets(Body())| > |Packets(old(Body()))|
    {
      Process();
      if skip {
        skip := false;
        input := input + [data];
        assert Body() == [];
        return;
      }
      Collect(data);
    }

    /** A stream of sent packets between a first byte and a last: every packet moves the cursor, in order. */
    method HandlePackets(first: u8, ps: seq<Packet>, last: u8)
      requires Valid() && input == [] && cursor == home && forall k :: 0 <= k < |ps| ==> Bit(ps[k].flags, 8)
      modifies this`skip, this`cycle, this`ready, this`cursor, this`posX, this`posY, this`input, packet
      ensures Valid() && cursor == MovedAll(home, ps, width, height)
    {
      var bytes := [first] + ByteStream(ps) + [last];
      assert bytes[1..|bytes| - 1] == ByteStream(ps);
      StreamDecodes(ps);
      HandleAll(bytes);
    }

    /** A whole byte stream. */
    method HandleAll(bytes: seq<u8>)
      requires Valid() && input == [] && cursor == home
      modifies this`skip, this`cycle, this`ready, this`cursor, this`posX, this`posY, this`input, packet
      ensures Valid() && input == bytes
      ensures cursor == MovedAll(home, Packets(if |bytes| >= 2 then bytes[1..|bytes| - 1] else []), width, height)
    {
      for i := 0 to |bytes|
        invariant Valid() && input == bytes[..i]
        invariant cursor == MovedAll(home, Packets(if i >= 2 then bytes[1..i - 1] else []), width, height)
      {
        assert i >= 1 ==> Body() == bytes[..i][1..] == bytes[1..i];
        Handle(bytes[i]);
        assert bytes[..i] + [bytes[i]] == bytes[..i + 1];
      }
      assert bytes[..|bytes|] == bytes;
    }
  }
}
