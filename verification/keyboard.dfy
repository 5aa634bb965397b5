/** The keyboard driver's state and its two entry points, refining `KeyboardSpec`. */
module KeyboardDriver {
  import opened Machine
  import opened KeyboardSpec

  class Keyboard {
    var shiftPressed: bool
    var ctrlPressed: bool
    var altPressed: bool
    var capslockOn: bool
    const buffer: array<char>
    var head: nat
    var tail: nat
    ghost var accepted: seq<char>
    ghost var returned: seq<char>

    ghost function Modifiers(): Mods
      reads this
    {
      Mods(shiftPressed, ctrlPressed, altPressed, capslockOn)
    }

    /** The ring between two calls of the reader. */
    ghost function Content(): Ring
      reads this, buffer
    {
      Ring(buffer[..], head, tail, Idle, Modifiers(), accepted, returned)
    }

    ghost predicate Valid()
      reads this, buffer
    {
      Inv(Content())
    }

    constructor ()
      ensures Valid() && fresh(buffer) && accepted == returned == []
      ensures Modifiers() == Mods(false, false, false, false)
    {
      buffer := new char[KB_BUFFER_SIZE](_ => NUL);
      shiftPressed, ctrlPressed, altPressed, capslockOn := false, false, false, false;
      head, tail, accepted, returned := 0, 0, [], [];
    }

    /** `translate_scancode`. */
    method TranslateScancode(scancode: Byte) returns (c: char)
      modifies this`shiftPressed, this`ctrlPressed, this`altPressed, this`capslockOn
      ensures (Modifiers(), c) == Translate(old(Modifiers()), scancode)
    {
      if scancode >= KEY_RELEASE {
        var released := scancode - KEY_RELEASE;
        if released == KEY_LSHIFT || released == KEY_RSHIFT {
          shiftPressed := false;
        } else if released == KEY_LCTRL {
          ctrlPressed := false;
        } else if released == KEY_LALT {
          altPressed := false;
        }
        return NUL;
      }
      if scancode == KEY_LSHIFT || scancode == KEY_RSHIFT {
        shiftPressed := true;
        return NUL;
      } else if scancode == KEY_LCTRL {
        ctrlPressed := true;
        return NUL;
      } else if scancode == KEY_LALT {
        altPressed := true;
        return NUL;
      } else if scancode == KEY_CAPSLOCK {
        capslockOn := !capslockOn;
        return NUL;
      } else if scancode == KEY_BACKSPACE {
        return '\U{0008}';
      } else if scancode == KEY_ESCAPE {
        return '\U{001B}';
      }
      if scancode < TABLE_SIZE {
        var useShift := shiftPressed;
        if 0x10 <= scancode <= 0x19 {
          useShift := shiftPressed != capslockOn;
        } else if 0x1E <= scancode <= 0x26 {
          useShift := shiftPressed != capslockOn;
        } else if 0x2C <= scancode <= 0x32 {
          useShift := shiftPressed != capslockOn;
        }
        if useShift {
          return Lookup(SHIFTED, scancode);
        } else {
          return Lookup(PLAIN, scancode);
        }
      }
      return NUL;
    }

    /** `keyboard_irq_handler`. */
    method IrqHandler(scancode: Byte)
      requires Valid()
      modifies this, buffer
      ensures Valid() && Content() == IrqStep(old(Content()), scancode)
    {
      hide Translate, Inv;
      ghost var r := Content();
      RingBounds(r);
      IrqKeepsInv(r, scancode);
      var c := TranslateScancode(scancode);
      if c != NUL {
        var next := (head + 1) % KB_BUFFER_SIZE;
        if next != tail {
          buffer[head] := c;
          head := next;
          accepted := accepted + [c];
        }
      }
      assert Content() == IrqStep(r, scancode);
    }

    /** `keyboard_getchar`, undisturbed: takes the oldest waiting character. */
    method Getchar() returns (c: char)
      requires Valid()
      modifies this`tail, this`returned
      ensures Valid() && accepted == old(accepted)
      ensures old(Pending(Content())) == [] ==> c == NUL && Content() == old(Content())
      ensures old(Pending(Content())) != [] ==>
        c == old(Pending(Content()))[0] && Pending(Content()) == old(Pending(Content()))[1..]
      ensures Content() == Undisturbed(old(Content()))
    {
      hide Inv, Undisturbed;
      ghost var r := Content();
      RingBounds(r);
      UndisturbedCall(r);
      if tail == head {
        return NUL;
      }
      c := buffer[tail];
      tail := (tail + 1) % KB_BUFFER_SIZE;
      returned := returned + [c];
    }
  }

  lemma RingBounds(r: Ring)
    requires Inv(r)
    ensures |r.buffer| == KB_BUFFER_SIZE && r.head < KB_BUFFER_SIZE && r.tail < KB_BUFFER_SIZE
  {
  }

  /** The reader's steps of one call with no interrupt in between. */
  function Undisturbed(r: Ring): Ring
    requires |r.buffer| == KB_BUFFER_SIZE && r.tail < KB_BUFFER_SIZE && r.reader == Idle
  {
    var s := ReadStep(ReadStep(r));
    if s.reader.Fetch? then ReadStep(ReadStep(ReadStep(s))) else s
  }

  lemma UndisturbedCall(r: Ring)
    requires Inv(r) && r.reader == Idle
    ensures var s := Undisturbed(r);
      && Inv(s) && s.reader == Idle
      && (Pending(r) == [] ==> s == r)
      && (Pending(r) != [] ==>
            s == r.(tail := (r.tail + 1) % KB_BUFFER_SIZE, returned := r.returned + [r.buffer[r.tail]])
            && r.buffer[r.tail] == Pending(r)[0] && Pending(s) == Pending(r)[1..])
      && (r.head == r.tail <==> Pending(r) == [])
  {
    FullIff(r);
    ReadKeepsInv(r);
    var a := ReadStep(r);
    ReadKeepsInv(a);
    var b := ReadStep(a);
    if b.reader.Fetch? {
      ReadKeepsInv(b);
      ReadKeepsInv(ReadStep(b));
      ReadKeepsInv(ReadStep(ReadStep(b)));
      QueuedPop(r.buffer, r.tail, Pending(r));
    }
  }
}
