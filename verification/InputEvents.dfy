/** The compact binary form of mouse, keyboard and scroll events. */
module InputEvents {
  import opened Bytes
  import opened Wire

  datatype MouseButton = Left | Right | Middle | Back | Forward

  datatype KeyAction = Press | Release

  datatype InputEvent =
    | Mouse(x: i32, y: i32, button: Option<(MouseButton, KeyAction)>)
    | Key(keycode: u32, action: KeyAction, modifiers: byte)
    | Scroll(dx: u32, dy: u32)  // the bit patterns of two 32-bit floats

  const TAG_MOUSE: byte := 0
  const TAG_KEY: byte := 1
  const TAG_SCROLL: byte := 2
  const NO_BUTTON: byte := 0xFF

  function ButtonNumber(b: MouseButton): byte {
    match b
    case Left => 0
    case Right => 1
    case Middle => 2
    case Back => 3
    case Forward => 4
  }

  /** The action in the high bit, the button in the seven low bits. */
  function ButtonByte(button: Option<(MouseButton, KeyAction)>): byte {
    match button
    case None => NO_BUTTON
    case Some((b, a)) => ButtonNumber(b) + if a == Press then 0x80 else 0
  }

  function ButtonFromNumber(v: byte): Result<MouseButton, ProtocolError> {
    if v == 0 then Ok(Left) else if v == 1 then Ok(Right) else if v == 2 then Ok(Middle)
    else if v == 3 then Ok(Back) else if v == 4 then Ok(Forward)
    else Err(UnknownInputEvent(v))
  }

  function ButtonFromByte(v: byte): Result<Option<(MouseButton, KeyAction)>, ProtocolError> {
    if v == NO_BUTTON then Ok(None)
    else
      match ButtonFromNumber(v % 0x80)
      case Err(e) => Err(e)
      case Ok(b) => Ok(Some((b, if v >= 0x80 then Press else Release)))
  }

  /** The sentinel is no packed button, and the packing is one to one onto the accepted bytes. */
  lemma ButtonPacking(button: Option<(MouseButton, KeyAction)>, v: byte)
    ensures ButtonByte(button) == NO_BUTTON <==> button == None
    ensures ButtonFromByte(ButtonByte(button)) == Ok(button)
    ensures ButtonFromByte(v).Ok? <==> v == NO_BUTTON || v % 0x80 <= 4
    ensures ButtonFromByte(v).Ok? ==> ButtonByte(ButtonFromByte(v).value) == v
  {
  }

  /** The wire image of an event. */
  function Image(e: InputEvent): seq<byte> {
    match e
    case Mouse(x, y, button) =>
      [TAG_MOUSE] + BigEndian(Pattern(x), 4) + BigEndian(Pattern(y), 4) + [ButtonByte(button)]
    case Key(keycode, action, modifiers) =>
      [TAG_KEY] + BigEndian(keycode, 4) + [if action == Press then 1 else 0] + [modifiers]
    case Scroll(dx, dy) =>
      [TAG_SCROLL] + BigEndian(dx, 4) + BigEndian(dy, 4)
  }

  /** Bytes that an event with tag `tag` occupies. */
  function Size(tag: byte): nat {
    if tag == TAG_MOUSE then 10 else if tag == TAG_KEY then 7 else 9
  }

  function Truncation(tag: byte): Fault {
    if tag == TAG_MOUSE then TruncatedMouse else if tag == TAG_KEY then TruncatedKey else TruncatedScroll
  }

  /** The event that a complete prefix denotes, read by offsets. */
  function Denoted(s: seq<byte>): Result<InputEvent, ProtocolError>
    requires s != [] && s[0] <= TAG_SCROLL && |s| >= Size(s[0])
  {
    if s[0] == TAG_MOUSE then
      match ButtonFromByte(s[9])
      case Err(e) => Err(e)
      case Ok(button) => Ok(Mouse(Wrap32(Field(s, 1)), Wrap32(Field(s, 5)), button))
    else if s[0] == TAG_KEY then
      Ok(Key(Field(s, 1), if s[5] == 1 then Press else Release, s[6]))
    else
      Ok(Scroll(Field(s, 1), Field(s, 5)))
  }

  /** What decoding `s` gives, and the bytes it leaves. */
  function Parse(s: seq<byte>): Decoded<InputEvent> {
    if s == [] then Decoded(Err(DecodeFault(EmptyInputEvent)), s)
    else if s[0] > TAG_SCROLL then Decoded(Err(UnknownInputEvent(s[0])), s[1..])
    else if |s| < Size(s[0]) then Decoded(Err(DecodeFault(Truncation(s[0]))), s[1..])
    else Decoded(Denoted(s), s[Size(s[0])..])
  }

  lemma Appended(d: seq<byte>, tag: byte, a: seq<byte>, b: seq<byte>, c: seq<byte>)
    ensures d + [tag] + a + b + c == d + ([tag] + a + b + c)
    ensures c == [] ==> d + [tag] + a + b == d + ([tag] + a + b)
  {
  }

  method Encode(e: InputEvent, dst: BytesMut)
    modifies dst
    ensures dst.data == old(dst.data) + Image(e)
  {
    hide BigEndian, Pattern;
    ghost var before := dst.data;
    match e
    case Mouse(x, y, button) =>
      dst.PutU8(TAG_MOUSE);
      dst.PutI32(x);
      dst.PutI32(y);
      match button {
        case None => dst.PutU8(NO_BUTTON);
        case Some((b, a)) =>
          var actionBit := if a == Press then 0x80 else 0;
          dst.PutU8(ButtonNumber(b) + actionBit);
      }
      Appended(before, TAG_MOUSE, BigEndian(Pattern(x), 4), BigEndian(Pattern(y), 4), [ButtonByte(button)]);
    case Key(keycode, action, modifiers) =>
      var actionByte := if action == Press then 1 else 0;
      dst.PutU8(TAG_KEY);
      dst.PutU32(keycode);
      dst.PutU8(actionByte);
      dst.PutU8(modifiers);
      Appended(before, TAG_KEY, BigEndian(keycode, 4), [actionByte], [modifiers]);
    case Scroll(dx, dy) =>
      dst.PutU8(TAG_SCROLL);
      dst.PutU32(dx);
      dst.PutU32(dy);
      Appended(before, TAG_SCROLL, BigEndian(dx, 4), BigEndian(dy, 4), []);
  }

  /** Reading past a tag and two fields. */
  lemma Skipped(s: seq<byte>)
    requires |s| >= 9
    ensures Field(s[1..], 0) == Field(s, 1)
    ensures Field(s[1..][4..], 0) == Field(s, 5)
    ensures s[1..][4..][4..] == s[9..]
  {
    assert s[1..][0..4] == s[1..5];
    assert s[1..][4..][0..4] == s[5..9];
  }

  method Decode(src: Cursor) returns (r: Result<InputEvent, ProtocolError>)
    modifies src
    ensures Decoded(r, src.data) == Parse(old(src.data))
  {
    ghost var s := src.data;
    if src.Remaining() == 0 {
      return Err(DecodeFault(EmptyInputEvent));
    }
    var tag := src.GetU8();
    if tag == TAG_MOUSE {
      if src.Remaining() < 9 {
        return Err(DecodeFault(TruncatedMouse));
      }
      Skipped(s);
      var x := src.GetI32();
      var y := src.GetI32();
      var v := src.GetU8();
      var button := None;
      if v != NO_BUTTON {
        var b := ButtonFromNumber(v % 0x80);
        if b.Err? {
          return Err(b.error);
        }
        button := Some((b.value, if v >= 0x80 then Press else Release));
      }
      return Ok(Mouse(x, y, button));
    } else if tag == TAG_KEY {
      if src.Remaining() < 6 {
        return Err(DecodeFault(TruncatedKey));
      }
      assert s[1..][0..4] == s[1..5];
      var keycode := src.GetU32();
      var actionByte := src.GetU8();
      var modifiers := src.GetU8();
      return Ok(Key(keycode, if actionByte == 1 then Press else Release, modifiers));
    } else if tag == TAG_SCROLL {
      if src.Remaining() < 8 {
        return Err(DecodeFault(TruncatedScroll));
      }
      Skipped(s);
      var dx := src.GetU32();
      var dy := src.GetU32();
      return Ok(Scroll(dx, dy));
    }
    return Err(UnknownInputEvent(tag));
  }

  lemma ImageShape(e: InputEvent, rest: seq<byte>)
    ensures var s := Image(e) + rest;
            && s[0] == (if e.Mouse? then TAG_MOUSE else if e.Key? then TAG_KEY else TAG_SCROLL)
            && |Image(e)| == Size(s[0]) && s[Size(s[0])..] == rest
  {
    hide BigEndian;
  }

  /** A tag and two four-byte fields, read by offsets. */
  lemma TwoFields(tag: byte, a: u32, b: u32, rest: seq<byte>)
    ensures var s := [tag] + BigEndian(a, 4) + BigEndian(b, 4) + rest;
            Field(s, 1) == a && Field(s, 5) == b && s[9..] == rest
  {
    hide BigEndian, Field;
    var s := [tag] + BigEndian(a, 4) + BigEndian(b, 4) + rest;
    assert s[1..5] == BigEndian(a, 4);
    assert s[5..9] == BigEndian(b, 4);
    FieldOf(s, 1, a);
    FieldOf(s, 5, b);
  }

  /** Every field at its offset, with its own numbers for tags, buttons and actions. */
  lemma ImageFields(e: InputEvent, rest: seq<byte>)
    ensures var s := Image(e) + rest;
            match e
            case Mouse(x, y, button) =>
              && |Image(e)| == 10 && s[0] == 0 && Field(s, 1) == Pattern(x) && Field(s, 5) == Pattern(y)
              && (match button
                  case None => s[9] == 255
                  case Some((b, a)) =>
                    s[9] == (match b case Left => 0 case Right => 1 case Middle => 2 case Back => 3 case Forward => 4)
                            + (match a case Press => 128 case Release => 0))
            case Key(keycode, action, modifiers) =>
              && |Image(e)| == 7 && s[0] == 1 && Field(s, 1) == keycode
              && s[5] == (match action case Press => 1 case Release => 0) && s[6] == modifiers
            case Scroll(dx, dy) =>
              && |Image(e)| == 9 && s[0] == 2 && Field(s, 1) == dx && Field(s, 5) == dy
  {
    hide BigEndian, Field, Pattern;
    var s := Image(e) + rest;
    ImageShape(e, rest);
    match e
    case Mouse(x, y, button) =>
      TwoFields(TAG_MOUSE, Pattern(x), Pattern(y), [ButtonByte(button)] + rest);
      assert s == [TAG_MOUSE] + BigEndian(Pattern(x), 4) + BigEndian(Pattern(y), 4) + ([ButtonByte(button)] + rest);
    case Key(keycode, action, modifiers) =>
      assert s[1..5] == BigEndian(keycode, 4);
      FieldOf(s, 1, keycode);
    case Scroll(dx, dy) =>
      TwoFields(TAG_SCROLL, dx, dy, rest);
  }

  /** An unknown tag, and a button byte that is neither the sentinel nor one of five buttons, are refused by number. */
  lemma UnknownNumbers(e: InputEvent, rest: seq<byte>, v: byte)
    ensures var s := (Image(e) + rest)[0 := v];
            v > 2 ==> Parse(s) == Decoded(Err(UnknownInputEvent(v)), s[1..])
    ensures e.Mouse? && v != 255 && v % 128 > 4 ==>
              var s := (Image(e) + rest)[9 := v];
              Parse(s) == Decoded(Err(UnknownInputEvent(v % 128)), s[10..])
  {
    ImageShape(e, rest);
    hide Field, BigEndian, Pattern, Wrap32;
  }

  /** Main result: decoding inverts encoding whatever follows, and consumes exactly the image. */
  lemma RoundTrip(e: InputEvent, rest: seq<byte>)
    ensures Parse(Image(e) + rest) == Decoded(Ok(e), rest)
  {
    hide BigEndian, Field, Pattern, Wrap32;
    var s := Image(e) + rest;
    ImageShape(e, rest);
    match e
    case Mouse(x, y, button) =>
      TwoFields(TAG_MOUSE, Pattern(x), Pattern(y), [ButtonByte(button)] + rest);
      assert s == [TAG_MOUSE] + BigEndian(Pattern(x), 4) + BigEndian(Pattern(y), 4) + ([ButtonByte(button)] + rest);
      PatternRoundTrip(x, 0);
      PatternRoundTrip(y, 0);
      ButtonPacking(button, 0);
    case Key(keycode, action, modifiers) =>
      assert s[1..5] == BigEndian(keycode, 4);
      FieldOf(s, 1, keycode);
    case Scroll(dx, dy) =>
      TwoFields(TAG_SCROLL, dx, dy, rest);
  }

  /** The one leniency: every action byte of a key event other than 1 counts as a release. */
  function Normalized(s: seq<byte>): seq<byte> {
    if |s| >= 6 && s[0] == TAG_KEY && s[5] != 1 then s[5 := 0] else s
  }

  lemma NormalMouse(s: seq<byte>)
    requires Parse(s).outcome.Ok? && s[0] == TAG_MOUSE
    ensures Image(Parse(s).outcome.value) + Parse(s).rest == s
  {
    hide BigEndian, Field, Pattern, Wrap32;
    FieldBytes(s, 1);
    FieldBytes(s, 5);
    PatternRoundTrip(0, Field(s, 1));
    PatternRoundTrip(0, Field(s, 5));
    ButtonPacking(None, s[9]);
    assert s == [TAG_MOUSE] + s[1..5] + s[5..9] + [s[9]] + s[10..];
  }

  lemma NormalKey(s: seq<byte>)
    requires Parse(s).outcome.Ok? && s[0] == TAG_KEY
    ensures Image(Parse(s).outcome.value) + Parse(s).rest == Normalized(s)
  {
    hide BigEndian, Field;
    FieldBytes(s, 1);
    assert Normalized(s) == [TAG_KEY] + s[1..5] + [if s[5] == 1 then 1 else 0] + [s[6]] + s[7..];
  }

  lemma NormalScroll(s: seq<byte>)
    requires Parse(s).outcome.Ok? && s[0] == TAG_SCROLL
    ensures Image(Parse(s).outcome.value) + Parse(s).rest == s
  {
    hide BigEndian, Field;
    FieldBytes(s, 1);
    FieldBytes(s, 5);
    assert s == [TAG_SCROLL] + s[1..5] + s[5..9] + s[9..];
  }

  /** Conversely, an accepted event re-encodes to the bytes it consumed, up to that leniency. */
  lemma NormalForm(s: seq<byte>)
    requires Parse(s).outcome.Ok?
    ensures Image(Parse(s).outcome.value) + Parse(s).rest == Normalized(s)
  {
    if s[0] == TAG_MOUSE {
      NormalMouse(s);
    } else if s[0] == TAG_KEY {
      NormalKey(s);
    } else {
      NormalScroll(s);
    }
  }

  /** Main result: up to that leniency, the decoder accepts what starts with the image of an event and nothing else. */
  lemma AcceptsOnlyImages(s: seq<byte>)
    ensures Parse(s).outcome.Ok? <==> exists e :: Image(e) <= Normalized(s)
  {
    if Parse(s).outcome.Ok? {
      NormalForm(s);
      assert Image(Parse(s).outcome.value) <= Normalized(s);
    }
    forall e | Image(e) <= Normalized(s) ensures Parse(s).outcome.Ok? {
      var t := Normalized(s);
      RoundTrip(e, t[|Image(e)|..]);
      assert t == Image(e) + t[|Image(e)|..];
      hide Image, Field;
    }
  }

  lemma Stable(s: seq<byte>)
    requires Parse(s).outcome.Ok?
    ensures Parse(Image(Parse(s).outcome.value) + Parse(s).rest) == Parse(s)
  {
    RoundTrip(Parse(s).outcome.value, Parse(s).rest);
  }

  /** No image starts another one, so a stream of events has only one reading. */
  lemma PrefixFree(d: InputEvent, e: InputEvent)
    requires Image(d) <= Image(e)
    ensures d == e
  {
    var rest := Image(e)[|Image(d)|..];
    assert Image(e) == Image(d) + rest == Image(e) + [];
    RoundTrip(d, rest);
    RoundTrip(e, []);
  }

  /** A cut event is refused as truncated, by its kind, and only its tag is consumed; no bytes are refused as empty. */
  lemma CutIsTruncated(e: InputEvent, k: nat)
    requires k < |Image(e)|
    ensures k == 0 ==> Parse(Image(e)[..k]) == Decoded(Err(DecodeFault(EmptyInputEvent)), [])
    ensures k > 0 ==>
              var fault := if e.Mouse? then TruncatedMouse else if e.Key? then TruncatedKey else TruncatedScroll;
              Parse(Image(e)[..k]) == Decoded(Err(DecodeFault(fault)), Image(e)[1..k])
  {
    hide BigEndian;
    ImageShape(e, []);
    assert Image(e) + [] == Image(e);
  }

  // ---------- streams of events ----------

  function Stream(events: seq<InputEvent>): seq<byte> {
    if events == [] then [] else Image(events[0]) + Stream(events[1..])
  }

  /** The events of a whole buffer, or the first refusal. */
  function ParseAll(s: seq<byte>): Result<seq<InputEvent>, ProtocolError>
    decreases |s|
  {
    if s == [] then Ok([])
    else
      var first := Parse(s);
      match first.outcome
      case Err(e) => Err(e)
      case Ok(e) =>
        match ParseAll(first.rest)
        case Err(x) => Err(x)
        case Ok(more) => Ok([e] + more)
  }

  /** Main result: any concatenation of encoded events decodes to exactly those events. */
  lemma {:induction false} StreamRoundTrip(events: seq<InputEvent>)
    ensures ParseAll(Stream(events)) == Ok(events)
  {
    if events == [] {
    } else {
      hide Image, Parse;
      StreamRoundTrip(events[1..]);
      RoundTrip(events[0], Stream(events[1..]));
      ImageShape(events[0], Stream(events[1..]));
      assert [events[0]] + events[1..] == events;
    }
  }

  /** Two different event lists never share their bytes. */
  lemma StreamInjective(d: seq<InputEvent>, e: seq<InputEvent>)
    requires Stream(d) == Stream(e)
    ensures d == e
  {
    StreamRoundTrip(d);
    StreamRoundTrip(e);
  }
}
