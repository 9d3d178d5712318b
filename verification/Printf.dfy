/** The formatter: it puts its output, character by character, into a buffer of limited size. */
module Printf {
  import opened Units
  import opened Words
  import opened PrintfText

  // ---------- the output buffer ----------

  /** From idx on `text` has been put out: the part below maxlen is in the buffer, and nothing else changed. */
  ghost predicate Emitted(before: seq<char>, after: seq<char>, idx: nat, text: seq<char>, maxlen: nat) {
    && |after| == |before|
    && forall k {:trigger after[k]} :: 0 <= k < |after| ==>
         after[k] == if idx <= k < idx + |text| && k < maxlen then text[k - idx] else before[k]
  }

  /** The buffer has room for n characters from idx on, up to maxlen. */
  ghost predicate Room(length: nat, idx: nat, n: nat, maxlen: nat) {
    idx + n <= length || maxlen <= length
  }

  lemma NothingEmitted(buf: seq<char>, idx: nat, maxlen: nat)
    ensures Emitted(buf, buf, idx, [], maxlen)
  {}

  lemma EmittedJoin(a: seq<char>, b: seq<char>, c: seq<char>, idx: nat, t: seq<char>, u: seq<char>, maxlen: nat)
    requires Emitted(a, b, idx, t, maxlen) && Emitted(b, c, idx + |t|, u, maxlen)
    ensures Emitted(a, c, idx, t + u, maxlen)
  {
    forall k | 0 <= k < |c|
      ensures c[k] == if idx <= k < idx + |t + u| && k < maxlen then (t + u)[k - idx] else a[k]
    {
      assert b[k] == if idx <= k < idx + |t| && k < maxlen then t[k - idx] else a[k];
    }
  }

  /** _out_buffer */
  method Out(c: char, buffer: array<char>, idx: nat, maxlen: nat)
    requires Room(buffer.Length, idx, 1, maxlen)
    modifies buffer
    ensures Emitted(old(buffer[..]), buffer[..], idx, [c], maxlen)
  {
    if idx < maxlen {
      buffer[idx] := c;
    }
  }

  /** The padding loops: spaces from l up to width. */
  method PadSpaces(buffer: array<char>, idx: nat, maxlen: nat, l: nat, width: nat) returns (r: nat)
    requires Room(buffer.Length, idx, |Copies(' ', width - l)|, maxlen)
    modifies buffer
    ensures r == idx + |Copies(' ', width - l)|
    ensures Emitted(old(buffer[..]), buffer[..], idx, Copies(' ', width - l), maxlen)
  {
    r := idx;
    var i := l;
    assert Copies(' ', 0) == [] && (width <= l ==> Copies(' ', width - l) == []);
    NothingEmitted(buffer[..], idx, maxlen);
    while i < width
      invariant l <= i && (if l <= width then i <= width else i == l) && r == idx + (i - l)
      invariant Emitted(old(buffer[..]), buffer[..], idx, Copies(' ', i - l), maxlen)
    {
      ghost var b := buffer[..];
      Out(' ', buffer, r, maxlen);
      EmittedJoin(old(buffer[..]), b, buffer[..], idx, Copies(' ', i - l), [' '], maxlen);
      OneMoreCopy(' ', i - l);
      r, i := r + 1, i + 1;
    }
  }

  /** The loop that puts a string out. */
  method OutString(buffer: array<char>, idx: nat, maxlen: nat, s: string) returns (r: nat)
    requires Room(buffer.Length, idx, |s|, maxlen)
    modifies buffer
    ensures r == idx + |s| && Emitted(old(buffer[..]), buffer[..], idx, s, maxlen)
  {
    r := idx;
    NothingEmitted(buffer[..], idx, maxlen);
    for i := 0 to |s|
      invariant r == idx + i && Emitted(old(buffer[..]), buffer[..], idx, s[..i], maxlen)
    {
      ghost var b := buffer[..];
      Out(s[i], buffer, r, maxlen);
      EmittedJoin(old(buffer[..]), b, buffer[..], idx, s[..i], [s[i]], maxlen);
      assert s[..i] + [s[i]] == s[..i + 1];
      r := r + 1;
    }
    assert s[..|s|] == s;
  }

  /** The second loop of _out_rev. */
  method OutReversed(buffer: array<char>, idx: nat, maxlen: nat, buf: array<char>, len0: nat) returns (r: nat)
    requires buffer != buf && len0 <= buf.Length && Room(buffer.Length, idx, len0, maxlen)
    modifies buffer
    ensures r == idx + len0 && Emitted(old(buffer[..]), buffer[..], idx, Reversed(buf[..len0]), maxlen)
  {
    r := idx;
    var len := len0;
    NothingEmitted(buffer[..], idx, maxlen);
    while len > 0
      invariant 0 <= len <= len0 && r == idx + (len0 - len) && buf[..] == old(buf[..])
      invariant Emitted(old(buffer[..]), buffer[..], idx, Reversed(buf[len..len0]), maxlen)
    {
      ghost var b := buffer[..];
      len := len - 1;
      Out(buf[len], buffer, r, maxlen);
      EmittedJoin(old(buffer[..]), b, buffer[..], idx, Reversed(buf[len + 1..len0]), [buf[len]], maxlen);
      OneMoreReversed(buf[len..len0]);
      assert buf[len..len0][1..] == buf[len + 1..len0];
      r := r + 1;
    }
    assert buf[0..len0] == buf[..len0];
  }

  lemma FieldParts(buf: seq<char>, lead: seq<char>, digits: seq<char>, trail: seq<char>, width: nat, flags: Flags)
    requires digits == Reversed(buf) && lead == if !flags.left && !flags.zeropad then Copies(' ', width - |buf|) else []
    requires trail == if flags.left then Copies(' ', width - |buf|) else []
    ensures Field(buf, width, flags) == lead + digits + trail
  {}

  lemma EmittedParts(b0: seq<char>, b1: seq<char>, b2: seq<char>, b3: seq<char>, idx: nat,
                     t: seq<char>, u: seq<char>, w: seq<char>, maxlen: nat)
    requires Emitted(b0, b1, idx, t, maxlen) && Emitted(b1, b2, idx + |t|, u, maxlen)
    requires Emitted(b2, b3, idx + |t| + |u|, w, maxlen)
    ensures Emitted(b0, b3, idx, t + u + w, maxlen)
  {
    EmittedJoin(b0, b1, b2, idx, t, u, maxlen);
    EmittedJoin(b0, b2, b3, idx, t + u, w, maxlen);
  }

  /** _out_rev */
  method OutRev(buffer: array<char>, idx: nat, maxlen: nat, buf: array<char>, len: nat, width: nat, flags: Flags)
    returns (r: nat)
    requires buffer != buf && len <= buf.Length && Room(buffer.Length, idx, |Field(buf[..len], width, flags)|, maxlen)
    modifies buffer
    ensures r == idx + |Field(old(buf[..len]), width, flags)|
    ensures Emitted(old(buffer[..]), buffer[..], idx, Field(old(buf[..len]), width, flags), maxlen)
  {
    ghost var b0, digits, spaces := buffer[..], Reversed(buf[..len]), Copies(' ', width - len);
    ghost var lead := if !flags.left && !flags.zeropad then spaces else [];
    ghost var trail := if flags.left then spaces else [];
    FieldParts(buf[..len], lead, digits, trail, width, flags);
    r := idx;
    NothingEmitted(b0, idx, maxlen);
    if !flags.left && !flags.zeropad {
      r := PadSpaces(buffer, r, maxlen, len, width);
    }
    ghost var b1 := buffer[..];
    r := OutReversed(buffer, r, maxlen, buf, len);
    ghost var b2 := buffer[..];
    NothingEmitted(b2, r, maxlen);
    if flags.left {
      r := PadSpaces(buffer, r, maxlen, r - idx, width);
    }
    EmittedParts(b0, b1, b2, buffer[..], idx, lead, digits, trail, maxlen);
  }

  // ---------- integers ----------

  /** A loop that appends zeros up to n characters. */
  method AppendZeros(buf: array<char>, len: nat, n: nat) returns (r: nat)
    requires buf.Length == NTOA_BUFFER && len <= NTOA_BUFFER
    modifies buf
    ensures len <= r <= NTOA_BUFFER && buf[..r] == ZeroPadded(old(buf[..len]), n)
  {
    r := len;
    assert Copies('0', 0) == [];
    while r < n && r < NTOA_BUFFER
      invariant len <= r <= NTOA_BUFFER && (len <= n ==> r <= n) && (r > len ==> r <= n)
      invariant buf[..r] == old(buf[..len]) + Copies('0', r - len)
    {
      buf[r] := '0';
      r := r + 1;
      assert buf[..r] == buf[..r - 1] + ['0'];
      OneMoreCopy('0', r - 1 - len);
    }
  }

  /** _ntoa_format */
  method NtoaFormat(buffer: array<char>, idx: nat, maxlen: nat, buf: array<char>, len: nat, negative: bool,
                    prec: nat, width: nat, flags: Flags) returns (r: nat)
    requires buffer != buf && buf.Length == NTOA_BUFFER && len <= NTOA_BUFFER
    requires Room(buffer.Length, idx, |FormattedField(buf[..len], negative, prec, width, flags)|, maxlen)
    modifies buffer, buf
    ensures r == idx + |FormattedField(old(buf[..len]), negative, prec, width, flags)|
    ensures Emitted(old(buffer[..]), buffer[..], idx, FormattedField(old(buf[..len]), negative, prec, width, flags),
                    maxlen)
  {
    ghost var digits := buf[..len];
    var n, w := len, width;
    if !flags.left {
      if w > 0 && flags.zeropad && (negative || flags.plus || flags.space) {
        w := w - 1;
      }
      n := AppendZeros(buf, n, prec);
      if flags.zeropad {
        n := AppendZeros(buf, n, w);
      }
    }
    assert buf[..n] == WithZeros(digits, negative, prec, width, flags);
    if n < NTOA_BUFFER {
      n := AppendSign(buf, n, negative, flags);
    }
    assert buf[..n] == Formatted(digits, negative, prec, width, flags);
    r := OutRev(buffer, idx, maxlen, buf, n, w, flags);
  }

  method AppendSign(buf: array<char>, len: nat, negative: bool, flags: Flags) returns (r: nat)
    requires len < buf.Length
    modifies buf
    ensures len <= r <= len + 1 && buf[..r] == old(buf[..len]) + Sign(negative, flags)
  {
    r := len;
    if negative {
      buf[len] := '-';
      r := len + 1;
    } else if flags.plus {
      buf[len] := '+';
      r := len + 1;
    } else if flags.space {
      buf[len] := ' ';
      r := len + 1;
    }
  }

  method StoreDigit(buf: array<char>, len: nat, digit: nat, upper: bool)
    requires len < buf.Length && digit < 16
    modifies buf
    ensures buf[..len + 1] == old(buf[..len]) + [DigitChar(digit, upper)]
  {
    buf[len] := DigitChar(digit, upper);
  }

  /** The digit loop of _ntoa_long. */
  method ConvertDigits(buf: array<char>, value: nat, base: nat, upper: bool) returns (len: nat)
    requires buf.Length > 0 && Base(base)
    modifies buf
    ensures len <= buf.Length && buf[..len] == Digits(value, base, upper, buf.Length)
  {
    NextDigit([], value, base, upper, buf.Length);
    StoreDigit(buf, 0, LastDigit(value, base), upper);
    var v := Quotient(value, base);
    len := 1;
    while v > 0 && len < buf.Length
      invariant 1 <= len <= buf.Length
      invariant Digits(value, base, upper, buf.Length) == buf[..len] + Remaining(v, base, upper, buf.Length - len)
      decreases buf.Length - len
    {
      NextDigit(buf[..len], v, base, upper, buf.Length - len);
      StoreDigit(buf, len, LastDigit(v, base), upper);
      len, v := len + 1, Quotient(v, base);
    }
  }

  /** _ntoa_long, and _ntoa_long_long, which is the same for types of the same size. */
  method NtoaLong(buffer: array<char>, idx: nat, maxlen: nat, value: nat, negative: bool, base: nat,
                  prec: nat, width: nat, flags: Flags) returns (r: nat)
    requires Base(base) && Room(buffer.Length, idx, |IntegerText(value, negative, base, prec, width, flags)|, maxlen)
    modifies buffer
    ensures r == idx + |IntegerText(value, negative, base, prec, width, flags)|
    ensures Emitted(old(buffer[..]), buffer[..], idx, IntegerText(value, negative, base, prec, width, flags), maxlen)
  {
    var buf := new char[NTOA_BUFFER];
    var len := 0;
    if !flags.precision || value > 0 {
      len := ConvertDigits(buf, value, base, flags.upper);
    }
    assert buf[..len] == Converted(value, base, flags);
    r := NtoaFormat(buffer, idx, maxlen, buf, len, negative, prec, width, flags);
  }

  // ---------- parsing ----------

  /** _atoi: the value, and the position behind the digits. */
  method Atoi(f: string, p: nat) returns (value: nat, e: nat)
    requires p <= |f|
    ensures e == DigitsEnd(f, p) && value == Parsed(f[p..e])
  {
    value, e := 0, p;
    while IsDigit(Peek(f, e))
      invariant p <= e <= DigitsEnd(f, p) == DigitsEnd(f, e) && value == Parsed(f[p..e])
      decreases |f| - e
    {
      assert f[p..e + 1][..e - p] == f[p..e];
      value := (value * 10 + (f[e] as nat - '0' as nat)) % W32;
      e := e + 1;
    }
  }

  method ParseFlags(f: string, start: Directive) returns (d: Directive)
    requires start.p <= |f|
    ensures d == ScanFlags(f, start)
  {
    d := start;
    var n := true;
    while n
      invariant d.p <= |f| && ScanFlags(f, d) == ScanFlags(f, start)
      invariant !n ==> d == ScanFlags(f, start)
      decreases |f| - d.p, n
    {
      match Peek(f, d.p) {
        case '0' => d := d.(flags := d.flags.(zeropad := true), p := d.p + 1);
        case '-' => d := d.(flags := d.flags.(left := true), p := d.p + 1);
        case '+' => d := d.(flags := d.flags.(plus := true), p := d.p + 1);
        case ' ' => d := d.(flags := d.flags.(space := true), p := d.p + 1);
        case _ => n := false;
      }
    }
  }

  method ParseWidth(f: string, args: seq<Arg>, start: Directive) returns (d: Directive)
    requires start.p <= |f|
    ensures d == ScanWidth(f, args, start)
  {
    d := start;
    if IsDigit(Peek(f, d.p)) {
      var width, e := Atoi(f, d.p);
      d := d.(width := width, p := e);
    } else if Peek(f, d.p) == '*' {
      var w := NumberAt(args, d.a);
      if w < 0 {
        d := d.(flags := d.flags.(left := true), width := -w);
      } else {
        d := d.(width := w);
      }
      d := d.(p := d.p + 1, a := d.a + 1);
    }
  }

  method ParsePrecision(f: string, args: seq<Arg>, start: Directive) returns (d: Directive)
    requires start.p <= |f|
    ensures d == ScanPrecision(f, args, start)
  {
    d := start;
    if Peek(f, d.p) == '.' {
      d := d.(flags := d.flags.(precision := true), p := d.p + 1);
      if IsDigit(Peek(f, d.p)) {
        var precision, e := Atoi(f, d.p);
        d := d.(precision := precision, p := e);
      } else if Peek(f, d.p) == '*' {
        var prec := NumberAt(args, d.a);
        d := d.(precision := if prec > 0 then prec else 0, p := d.p + 1, a := d.a + 1);
      }
    }
  }

  method ParseLength(f: string, start: Directive) returns (d: Directive)
    requires start.p <= |f|
    ensures d == ScanLength(f, start)
  {
    d := start;
    match Peek(f, d.p) {
      case 'l' =>
        d := d.(flags := d.flags.(long := true), p := d.p + 1);
        if Peek(f, d.p) == 'l' {
          d := d.(flags := d.flags.(longLong := true), p := d.p + 1);
        }
      case 'h' =>
        d := d.(flags := d.flags.(narrow := true), p := d.p + 1);
        if Peek(f, d.p) == 'h' {
          d := d.(flags := d.flags.(byte := true), p := d.p + 1);
        }
      case 't' => d := d.(flags := d.flags.(long := true), p := d.p + 1);
      case 'j' => d := d.(flags := d.flags.(long := true), p := d.p + 1);
      case 'z' => d := d.(flags := d.flags.(long := true), p := d.p + 1);
      case _ =>
    }
  }

  // ---------- conversions ----------

  /** %c and %s: `shown` in a field. */
  method OutField(buffer: array<char>, idx: nat, maxlen: nat, d: Directive, shown: string) returns (r: nat)
    requires Room(buffer.Length, idx, |InField(d, shown)|, maxlen)
    modifies buffer
    ensures r == idx + |InField(d, shown)| && Emitted(old(buffer[..]), buffer[..], idx, InField(d, shown), maxlen)
  {
    ghost var b0 := buffer[..];
    r := idx;
    if !d.flags.left {
      r := PadSpaces(buffer, r, maxlen, |shown|, d.width);
    }
    ghost var b1 := buffer[..];
    r := OutString(buffer, r, maxlen, shown);
    ghost var b2 := buffer[..];
    if d.flags.left {
      r := PadSpaces(buffer, r, maxlen, |shown|, d.width);
      EmittedJoin(b0, b2, buffer[..], idx, shown, Copies(' ', d.width - |shown|), maxlen);
    } else {
      EmittedJoin(b0, b1, b2, idx, Copies(' ', d.width - |shown|), shown, maxlen);
    }
  }

  /** The integer conversions. */
  method OutInteger(buffer: array<char>, idx: nat, maxlen: nat, c: char, d: Directive, args: seq<Arg>) returns (r: nat)
    requires IsInteger(c) && Room(buffer.Length, idx, |Conversion(c, d, args)|, maxlen)
    modifies buffer
    ensures r == idx + |Conversion(c, d, args)|
    ensures Emitted(old(buffer[..]), buffer[..], idx, Conversion(c, d, args), maxlen)
  {
    var flags := d.flags;
    var base := if c == 'x' || c == 'X' then 16 else if c == 'o' then 8 else if c == 'b' then 2 else 10;
    if c == 'X' {
      flags := flags.(upper := true);
    }
    if c != 'i' && c != 'd' {
      flags := flags.(plus := false, space := false);
    }
    if flags.precision {
      flags := flags.(zeropad := false);
    }
    var value := Value(c, flags, NumberAt(args, d.a));
    var size := if value > 0 then value else 0 - value;
    assert Conversion(c, d, args) == IntegerText(size, value < 0, base, d.precision, d.width, flags) by {
      assert size == Abs(value);
    }
    r := NtoaLong(buffer, idx, maxlen, size, value < 0, base, d.precision, d.width, flags);
  }

  /** The evaluation of a specifier. */
  method Convert(buffer: array<char>, idx: nat, maxlen: nat, c: char, d: Directive, args: seq<Arg>)
    returns (r: nat, a: nat)
    requires Room(buffer.Length, idx, |Conversion(c, d, args)|, maxlen)
    modifies buffer
    ensures r == idx + |Conversion(c, d, args)| && a == d.a + ArgsUsed(c)
    ensures Emitted(old(buffer[..]), buffer[..], idx, Conversion(c, d, args), maxlen)
  {
    a := d.a;
    if IsInteger(c) {
      r := OutInteger(buffer, idx, maxlen, c, d, args);
      a := a + 1;
    } else if c == 'c' {
      r := OutField(buffer, idx, maxlen, d, [CharOf(NumberAt(args, a))]);
      a := a + 1;
    } else if c == 's' {
      r := OutField(buffer, idx, maxlen, d, Shown(d, TextAt(args, a)));
      a := a + 1;
    } else if c == 'p' {
      r := NtoaLong(buffer, idx, maxlen, Abs(NumberAt(args, a)), false, 16, d.precision, 16,
                    d.flags.(zeropad := true, upper := true));
      a := a + 1;
    } else {
      Out(c, buffer, idx, maxlen);
      r := idx + 1;
    }
  }

  /** The reading of a directive. */
  method ParseDirective(f: string, args: seq<Arg>, p: nat, a: nat) returns (d: Directive)
    requires p <= |f|
    ensures d == Scan(f, args, p, a)
  {
    d := ParseFlags(f, Directive(NO_FLAGS, 0, 0, p, a));
    d := ParseWidth(f, args, d);
    d := ParsePrecision(f, args, d);
    d := ParseLength(f, d);
  }

  /** (int) */
  function ToInt(x: nat): (i: int)
    ensures x < 0x8000_0000 ==> i == x
  {
    if x % W32 < W32 / 2 then x % W32 else x % W32 - W32
  }

  /** What the buffer holds at the end: the first characters of the text, as many as leave room for a terminating
      NUL below maxlen, then the NUL; nothing else has changed. */
  ghost predicate Terminated(before: seq<char>, after: seq<char>, text: seq<char>, maxlen: nat) {
    && |after| == |before|
    && if maxlen == 0 then after == before
       else
         var n := if |text| < maxlen then |text| else maxlen - 1;
         forall k {:trigger after[k]} :: 0 <= k < |after| ==>
           after[k] == if k < n then text[k] else if k == n then '\0' else before[k]
  }

  /** One step of the loop of _vsnprintf: a character, or a directive. */
  method Step(buffer: array<char>, idx: nat, maxlen: nat, f: string, args: seq<Arg>, p: nat, a: nat)
    returns (idx': nat, p': nat, a': nat)
    requires p < |f| && PieceOK(f, args, p, a) && Room(buffer.Length, idx, |PieceAt(f, args, p, a).text|, maxlen)
    modifies buffer
    ensures PieceAt(f, args, p, a).p == p' && PieceAt(f, args, p, a).a == a'
    ensures idx' == idx + |PieceAt(f, args, p, a).text|
    ensures Emitted(old(buffer[..]), buffer[..], idx, PieceAt(f, args, p, a).text, maxlen)
  {
    if f[p] != '%' {
      Out(f[p], buffer, idx, maxlen);
      idx', p', a' := idx + 1, p + 1, a;
    } else {
      var d := ParseDirective(f, args, p + 1, a);
      idx', a' := Convert(buffer, idx, maxlen, f[d.p], d, args);
      p' := d.p + 1;
    }
  }

  /** The loop has put out `done`, and is at position p and argument a. */
  ghost predicate Progress(f: string, args: seq<Arg>, before: seq<char>, after: seq<char>, maxlen: nat, done: string,
                           p: nat, a: nat) {
    && p <= |f| && WellFormedUpTo(f, args, p, a) == |f|
    && Render(f, args, 0, 0) == done + Render(f, args, p, a) && Emitted(before, after, 0, done, maxlen)
  }

  lemma MoreDone(whole: string, done: string, rest: string, text: string, rest': string)
    requires whole == done + rest && rest == text + rest'
    ensures whole == (done + text) + rest'
  {}

  /** The body of the loop of _vsnprintf. */
  method Advance(buffer: array<char>, idx: nat, maxlen: nat, f: string, args: seq<Arg>, p: nat, a: nat,
                 ghost before: seq<char>, ghost done: string)
    returns (idx': nat, p': nat, a': nat, ghost done': string)
    requires p < |f| && idx == |done| && Progress(f, args, before, buffer[..], maxlen, done, p, a)
    requires Room(buffer.Length, 0, |Render(f, args, 0, 0)|, maxlen)
    modifies buffer
    ensures p < p' && idx' == |done'| && Progress(f, args, before, buffer[..], maxlen, done', p', a')
  {
    ghost var b, piece := buffer[..], PieceAt(f, args, p, a);
    FirstPiece(f, args, p, a);
    idx', p', a' := Step(buffer, idx, maxlen, f, args, p, a);
    done' := done + piece.text;
    EmittedJoin(before, b, buffer[..], 0, done, piece.text, maxlen);
    MoreDone(Render(f, args, 0, 0), done, Render(f, args, p, a), piece.text, Render(f, args, p', a'));
  }

  /** The part of _vsnprintf before the termination. */
  method Format(buffer: array<char>, maxlen: nat, f: string, args: seq<Arg>) returns (idx: nat)
    requires WellFormed(f, args) && Room(buffer.Length, 0, |Render(f, args, 0, 0)|, maxlen)
    modifies buffer
    ensures idx == |Render(f, args, 0, 0)| && Emitted(old(buffer[..]), buffer[..], 0, Render(f, args, 0, 0), maxlen)
  {
    var p, a := 0, 0;
    ghost var before, done := buffer[..], "";
    idx := 0;
    NothingEmitted(before, 0, maxlen);
    assert "" + Render(f, args, 0, 0) == Render(f, args, 0, 0);
    while p < |f|
      invariant idx == |done| && Progress(f, args, before, buffer[..], maxlen, done, p, a)
      decreases |f| - p
    {
      idx, p, a, done := Advance(buffer, idx, maxlen, f, args, p, a, before, done);
    }
    assert done + "" == done;
  }

  /** _vsnprintf with _out_buffer.  The text does not depend on maxlen, and its length is returned; for maxlen 0
      the position of the NUL wraps around, and nothing is written. */
  method Vsnprintf(buffer: array<char>, maxlen: nat, f: string, args: seq<Arg>) returns (written: int)
    requires WellFormed(f, args) && maxlen < W64
    requires Room(buffer.Length, 0, |Render(f, args, 0, 0)| + 1, maxlen)
    modifies buffer
    ensures written == ToInt(|Render(f, args, 0, 0)|)
    ensures Terminated(old(buffer[..]), buffer[..], Render(f, args, 0, 0), maxlen)
  {
    var idx := Format(buffer, maxlen, f, args);
    Out('\0', buffer, if idx < maxlen then idx else if maxlen == 0 then W64 - 1 else maxlen - 1, maxlen);
    written := ToInt(idx);
  }
}
