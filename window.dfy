/** Writing to the screen: the resolution of one output, and the window whose
    shared-memory file backs that output's fullscreen surface.
    The file is a byte sequence; the requests the window sends to the display
    server are appended, in order, to a request log. */
module Display {
  import opened Primitives
  import opened Colors

  /** Pixel format of the shared-memory buffer. */
  datatype ShmFormat = Argb8888

  datatype FullscreenMethod = Default

  /** Requests sent to the display server, in the order they are sent. */
  datatype Request =
    | CreateSurface
    | GetShellSurface
    | CreatePool(size: i32)
    | CreateBuffer(offset: i32, width: i32, height: i32, stride: i32, format: ShmFormat)
    | SetFullscreen(fullscreen: FullscreenMethod, framerate: u32, output: nat)
    | Attach(x: i32, y: i32)
    | Commit
    | Damage(x: i32, y: i32, width: i32, height: i32)
    | Pong(serial: u32)

  /** The size of one output, tracked from its mode events. */
  class Resolution {
    var w: u32
    var h: u32

    /** The zero resolution, before any mode event has arrived. */
    constructor ()
      ensures w == 0 && h == 0
    {
      w, h := 0, 0;
    }

    /** `w * h` does not overflow a `u32` (with overflow checks on, an overflow
        panics). */
    predicate SizeFits()
      reads this
    {
      w * h < U32_LIMIT
    }

    /** The number of pixels, `w * h`: zero exactly when one side is zero. */
    function Size(): (s: u32)
      reads this
      requires SizeFits()
      ensures s == 0 <==> w == 0 || h == 0
    {
      w * h
    }

    /** The output's mode event: only the mode flagged as current (bit 0 of
        `flags`, that is `flags & 0x1 != 0`) overwrites the size; width and height are cast from `i32`. */
    method Mode(flags: u32, width: i32, height: i32, refresh: i32)
      modifies this
      ensures flags % 2 != 0 ==> w == I32AsU32(width) && h == I32AsU32(height)
      ensures flags % 2 == 0 ==> w == old(w) && h == old(h)
    {
      if flags % 2 != 0 {
        w := I32AsU32(width);
        h := I32AsU32(height);
      }
    }
  }

  /** The file after writing `bytes` into it at offset `pos`: those bytes are
      replaced (or appended past the end), everything else is kept. */
  function WriteAt(file: seq<u8>, pos: nat, bytes: seq<u8>): (r: seq<u8>)
    requires pos <= |file|
    ensures |r| == if pos + |bytes| <= |file| then |file| else pos + |bytes|
    ensures forall i :: 0 <= i < |r| ==>
      r[i] == if pos <= i < pos + |bytes| then bytes[i - pos] else file[i]
  {
    file[..pos] + bytes + if pos + |bytes| <= |file| then file[pos + |bytes|..] else []
  }

  /** `n` pixel words `x`, as `n` calls of `write_u32` leave them in a file. */
  function Words(x: u32, n: nat): (b: seq<u8>)
    ensures |b| == 4 * n
  {
    if n == 0 then [] else Words(x, n - 1) + LeBytes(x)
  }

  /** Byte `i` of `n` words `x` is byte `i % 4` of the word. */
  lemma {:induction false} WordsAt(x: u32, n: nat, i: nat)
    requires i < 4 * n
    ensures Words(x, n)[i] == LeBytes(x)[i % 4]
  {
    if i < 4 * (n - 1) {
      WordsAt(x, n - 1, i);
    }
  }

  /** Word `k` of `n` words `x` is `x`. */
  lemma WordsWord(x: u32, n: nat, k: nat)
    requires k < n
    ensures Words(x, n)[4 * k .. 4 * k + 4] == LeBytes(x)
  {
    forall j | 0 <= j < 4
      ensures Words(x, n)[4 * k + j] == LeBytes(x)[j]
    {
      WordsAt(x, n, 4 * k + j);
    }
  }

  /** Two writes, the second starting where the first ended, are one write of
      both. */
  lemma WriteAtConsecutive(file: seq<u8>, a: seq<u8>, b: seq<u8>)
    ensures |a| <= |WriteAt(file, 0, a)|
    ensures WriteAt(WriteAt(file, 0, a), |a|, b) == WriteAt(file, 0, a + b)
  {
    var first := WriteAt(file, 0, a);
    var lhs := WriteAt(first, |a|, b);
    var rhs := WriteAt(file, 0, a + b);
    assert |lhs| == |rhs|;
    forall i | 0 <= i < |lhs|
      ensures lhs[i] == rhs[i]
    {
      if i < |a| {
        assert lhs[i] == first[i] == a[i];
      } else if i < |a| + |b| {
        assert lhs[i] == b[i - |a|];
      } else {
        assert lhs[i] == first[i] == file[i];
      }
    }
  }

  /** Writing a colour from the start over a file no longer than the words
      leaves exactly the words, whatever the file held before; on a file of
      exactly that length the length is kept. */
  lemma FullOverwrite(file: seq<u8>, x: u32, n: nat)
    requires |file| <= 4 * n
    ensures WriteAt(file, 0, Words(x, n)) == Words(x, n)
  {
  }

  /** The requests both update paths end with: damage the whole surface,
      attach the buffer, commit. */
  function Redraw(w: u32, h: u32): (r: seq<Request>)
    ensures |r| == 3 && r[0].Damage? && r[1] == Attach(0, 0) && r[2] == Commit
    ensures r[0].x == 0 && r[0].y == 0
    ensures w < 0x8000_0000 && h < 0x8000_0000 ==> r[0].width == w && r[0].height == h
  {
    [Damage(0, 0, U32AsI32(w), U32AsI32(h)), Attach(0, 0), Commit]
  }

  /** The window backing one output's fullscreen surface. */
  class Window {
    /** The shared-memory file the buffer is made from. */
    var file: seq<u8>
    /** Every request this window has sent, oldest first. */
    var requests: seq<Request>

    /** Fills a new file with `size()` black pixels, then creates the surface,
        the pool and buffer over the file, makes the surface fullscreen on
        `output`, attaches the buffer and commits. */
    constructor (res: Resolution, output: nat)
      requires res.SizeFits() && res.Size() != 0
      requires res.w * res.h * 4 < U32_LIMIT
      ensures file == Words(ToU32(BLACK), res.Size())
      ensures |file| == 4 * res.Size()
      ensures requests == [
        CreateSurface,
        GetShellSurface,
        CreatePool(U32AsI32(res.w * res.h * 4)),
        CreateBuffer(0, U32AsI32(res.w), U32AsI32(res.h), U32AsI32(res.w * 4), Argb8888),
        SetFullscreen(Default, 0, output),
        Attach(0, 0),
        Commit]
    {
      file := [];
      requests := [];
      new;
      WriteWords(ToU32(BLACK), res.Size());
      requests := [
        CreateSurface,
        GetShellSurface,
        CreatePool(U32AsI32(res.w * res.h * 4)),
        CreateBuffer(0, U32AsI32(res.w), U32AsI32(res.h), U32AsI32(res.w * 4), Argb8888),
        SetFullscreen(Default, 0, output),
        Attach(0, 0),
        Commit];
    }

    /** Writes `n` words `x` into the file from offset 0, one at a time. */
    method WriteWords(x: u32, n: nat)
      modifies this`file
      ensures file == WriteAt(old(file), 0, Words(x, n))
    {
      var original := file;
      assert WriteAt(original, 0, []) == original;
      for i := 0 to n
        invariant file == WriteAt(original, 0, Words(x, i))
      {
        WriteAtConsecutive(original, Words(x, i), LeBytes(x));
        file := WriteAt(file, 4 * i, LeBytes(x));
      }
    }

    /** Overwrites the file from offset 0 with `bytes`, then redraws. */
    method WriteBytes(res: Resolution, bytes: seq<u8>)
      requires res.SizeFits() && res.Size() != 0
      modifies this
      ensures file == WriteAt(old(file), 0, bytes)
      ensures requests == old(requests) + Redraw(res.w, res.h)
    {
      file := WriteAt(file, 0, bytes);
      requests := requests + Redraw(res.w, res.h);
    }

    /** Overwrites the file from offset 0 with `size()` pixels of `color`,
        then redraws. */
    method UpdateColor(color: Color, res: Resolution)
      requires res.SizeFits() && res.Size() != 0
      modifies this
      ensures file == WriteAt(old(file), 0, Words(ToU32(color), res.Size()))
      ensures |old(file)| <= 4 * res.Size() ==> file == Words(ToU32(color), res.Size())
      ensures requests == old(requests) + Redraw(res.w, res.h)
    {
      WriteWords(ToU32(color), res.Size());
      if |old(file)| <= 4 * res.Size() {
        FullOverwrite(old(file), ToU32(color), res.Size());
      }
      requests := requests + Redraw(res.w, res.h);
    }

    /** Answers the shell surface's ping with a pong of the same serial. */
    method Ping(serial: u32)
      modifies this`requests
      ensures requests == old(requests) + [Pong(serial)]
    {
      requests := requests + [Pong(serial)];
    }
  }

  /** Writing `size()` words of a colour into a window's file of `4 * size()`
      bytes keeps the file at `4 * size()` bytes and leaves only that colour. */
  lemma UpdateColorKeepsLength(file: seq<u8>, x: u32, n: nat)
    requires |file| == 4 * n
    ensures |WriteAt(file, 0, Words(x, n))| == |file|
    ensures forall k :: 0 <= k < n ==> WriteAt(file, 0, Words(x, n))[4 * k .. 4 * k + 4] == LeBytes(x)
  {
    FullOverwrite(file, x, n);
    forall k | 0 <= k < n
      ensures Words(x, n)[4 * k .. 4 * k + 4] == LeBytes(x)
    {
      WordsWord(x, n, k);
    }
  }

  /** Writing exactly `4 * size()` bytes keeps a file of that length at that
      length, with those bytes as its content. */
  lemma WriteBytesFullFrame(file: seq<u8>, bytes: seq<u8>)
    requires |bytes| == |file|
    ensures WriteAt(file, 0, bytes) == bytes
  {
  }

  /** Writing the same bytes a second time changes nothing more. */
  lemma WriteAtIdempotent(file: seq<u8>, bytes: seq<u8>)
    ensures WriteAt(WriteAt(file, 0, bytes), 0, bytes) == WriteAt(file, 0, bytes)
  {
    var once := WriteAt(file, 0, bytes);
    var twice := WriteAt(once, 0, bytes);
    assert |twice| == |once|;
    forall i | 0 <= i < |twice|
      ensures twice[i] == once[i]
    {
    }
  }

  /** The file a new window starts with: every word is opaque black,
      the bytes 0, 0, 0, 255. */
  lemma NewFileIsBlack(n: nat)
    ensures |Words(ToU32(BLACK), n)| == 4 * n
    ensures forall k :: 0 <= k < n ==> Words(ToU32(BLACK), n)[4 * k .. 4 * k + 4] == [0, 0, 0, 255]
  {
    BlackIsOpaqueBlack();
    forall k | 0 <= k < n
      ensures Words(ToU32(BLACK), n)[4 * k .. 4 * k + 4] == [0, 0, 0, 255]
    {
      WordsWord(ToU32(BLACK), n, k);
    }
  }
}
