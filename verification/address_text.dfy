/** The text form of a Bluetooth device address.

    An address is stored as six bytes, least significant first, and written
    as six two-digit hexadecimal octets separated by colons, most
    significant first: the bytes `55 44 33 22 11 00` print as
    `00:11:22:33:44:55`. Parsing splits the text at the first five colons
    (`splitn(6, ':')`), reads each piece as a hexadecimal byte with Rust's
    `u8::from_str_radix(_, 16)`, requires exactly six pieces and reverses
    them. */
module AddressText {
  import opened Bytes
  import opened Wrappers
  import opened Wire

  type Text = seq<char>

  // ---------------------------------------------------------------------
  // Hexadecimal digits and bytes
  // ---------------------------------------------------------------------

  predicate IsHexDigit(c: char)
  {
    '0' <= c <= '9' || 'a' <= c <= 'f' || 'A' <= c <= 'F'
  }

  predicate AllHexDigits(t: Text)
  {
    forall i :: 0 <= i < |t| ==> IsHexDigit(t[i])
  }

  function DigitValue(c: char): (d: nat)
    requires IsHexDigit(c)
    ensures d < 16
  {
    if '0' <= c <= '9' then c as int - '0' as int
    else if 'a' <= c <= 'f' then c as int - 'a' as int + 10
    else c as int - 'A' as int + 10
  }

  /** The value of a string of hex digits, most significant digit first. */
  function HexValue(t: Text): nat
    requires AllHexDigits(t)
  {
    if |t| == 0 then 0 else 16 * HexValue(t[..|t| - 1]) + DigitValue(t[|t| - 1])
  }

  /** Extending a digit string never lowers its value. */
  lemma {:induction false} HexValuePrefix(t: Text, k: nat)
    requires AllHexDigits(t) && k <= |t|
    ensures HexValue(t[..k]) <= HexValue(t)
    decreases |t|
  {
    if k < |t| {
      assert t[..|t| - 1][..k] == t[..k];
      HexValuePrefix(t[..|t| - 1], k);
    } else {
      assert t[..k] == t;
    }
  }

  /** `u8::from_str_radix(t, 16)`: an optional leading `+`, then at least
      one hex digit of either case, with a value that fits in a byte. The
      library's parser fails as soon as a partial value exceeds 255; by
      `HexValuePrefix` partial values never exceed the final one, so
      bounding the final value is the same test. */
  function ParseHexByte(t: Text): (r: Option<byte>)
    ensures r.Some? <==> var d := if |t| > 0 && t[0] == '+' then t[1..] else t;
                         |d| > 0 && AllHexDigits(d) && HexValue(d) <= 255
    ensures r.Some? ==> r.value == HexValue(if t[0] == '+' then t[1..] else t)
  {
    var digits := if |t| > 0 && t[0] == '+' then t[1..] else t;
    if |digits| == 0 || !AllHexDigits(digits) || HexValue(digits) > 255 then None
    else Some(HexValue(digits))
  }

  function UpperHexDigit(d: nat): (c: char)
    requires d < 16
    ensures IsHexDigit(c) && DigitValue(c) == d && c != ':' && c != '+'
  {
    if d < 10 then ('0' as int + d) as char else ('A' as int + d - 10) as char
  }

  /** `{:02X}`: a byte as two upper-case hex digits. */
  function Hex2(b: byte): (t: Text)
    ensures |t| == 2 && NoColon(t)
  {
    [UpperHexDigit(b / 16), UpperHexDigit(b % 16)]
  }

  lemma ParseHex2(b: byte)
    ensures ParseHexByte(Hex2(b)) == Some(b)
  {
    var t := Hex2(b);
    assert t[..1] == [t[0]];
    assert [t[0]][..0] == [];
    assert HexValue(t[..1]) == DigitValue(t[0]);
    assert HexValue(t) == 16 * (b / 16) + b % 16;
  }

  /** The parser's edge cases: a `+` sign is accepted, an empty piece is
      not, and neither is a value above 255 however it is written. */
  lemma ParseHexByteExamples()
    ensures ParseHexByte("+ff") == Some(255)
    ensures ParseHexByte("0a") == Some(10)
    ensures ParseHexByte("") == None
    ensures ParseHexByte("+") == None
    ensures ParseHexByte("100") == None
    ensures ParseHexByte("-1") == None
  {
    assert "ff"[..1] == "f";
    assert "f"[..0] == "";
    assert "0a"[..1] == "0";
    assert "0"[..0] == "";
    assert "100"[..2] == "10" && "10"[..1] == "1" && "1"[..0] == "";
  }

  // ---------------------------------------------------------------------
  // splitn and join
  // ---------------------------------------------------------------------

  predicate NoColon(t: Text)
  {
    forall i :: 0 <= i < |t| ==> t[i] != ':'
  }

  /** The position of the first colon, if any. */
  function FindColon(t: Text): (r: Option<nat>)
    ensures r.Some? ==> r.value < |t| && t[r.value] == ':' && NoColon(t[..r.value])
    ensures r.None? ==> NoColon(t)
  {
    if |t| == 0 then None
    else if t[0] == ':' then Some(0)
    else
      match FindColon(t[1..])
      case None => None
      case Some(i) =>
        assert t[..i + 1] == [t[0]] + t[1..][..i];
        Some(i + 1)
  }

  /** Pieces put back together with a colon between neighbours. */
  function Join(parts: seq<Text>): (r: Text)
    decreases |parts|
  {
    if |parts| == 0 then []
    else if |parts| == 1 then parts[0]
    else parts[0] + [':'] + Join(parts[1..])
  }

  /** `str::splitn(n, ':')`: at most `n` pieces, split at the first colons;
      the last piece keeps the rest of the text, colons included. */
  function SplitN(t: Text, n: nat): (r: seq<Text>)
    requires n >= 1
    ensures 1 <= |r| <= n
    ensures Join(r) == t
    ensures forall i :: 0 <= i < |r| - 1 ==> NoColon(r[i])
    decreases n
  {
    if n == 1 then [t]
    else
      match FindColon(t)
      case None => [t]
      case Some(i) =>
        var tail := SplitN(t[i + 1..], n - 1);
        assert t == t[..i] + [':'] + t[i + 1..];
        assert ([t[..i]] + tail)[1..] == tail;
        [t[..i]] + tail
  }

  /** Fewer than `n` pieces means the text ran out of colons: the last
      piece has none. */
  lemma {:induction false} SplitNShortLast(t: Text, n: nat)
    requires n >= 1
    ensures |SplitN(t, n)| < n ==> NoColon(SplitN(t, n)[|SplitN(t, n)| - 1])
    decreases n
  {
    if n > 1 {
      match FindColon(t)
      case None =>
        assert SplitN(t, n) == [t];
      case Some(i) =>
        var tail := SplitN(t[i + 1..], n - 1);
        SplitNShortLast(t[i + 1..], n - 1);
        assert SplitN(t, n) == [t[..i]] + tail;
    }
  }

  lemma {:induction false} FindColonAfter(p: Text, x: Text)
    requires NoColon(p)
    ensures FindColon(p + [':'] + x) == Some(|p|)
  {
    var t := p + [':'] + x;
    assert t[|p|] == ':';
    assert forall j :: 0 <= j < |p| ==> t[j] == p[j];
  }

  // ---------------------------------------------------------------------
  // Parsing and printing addresses
  // ---------------------------------------------------------------------

  /** Every piece read as a hex byte, or nothing if one of them fails. */
  function ParseParts(parts: seq<Text>): (r: Option<seq<byte>>)
    ensures r.Some? <==> forall i :: 0 <= i < |parts| ==> ParseHexByte(parts[i]).Some?
    ensures r.Some? ==> |r.value| == |parts|
    ensures r.Some? ==> forall i :: 0 <= i < |parts| ==> r.value[i] == ParseHexByte(parts[i]).value
    decreases |parts|
  {
    if |parts| == 0 then Some([])
    else
      var head := ParseHexByte(parts[0]);
      var tail := ParseParts(parts[1..]);
      if head.None? || tail.None? then None else Some([head.value] + tail.value)
  }

  function Reverse(s: bytes): (r: bytes)
    ensures |r| == |s| && forall i :: 0 <= i < |s| ==> r[i] == s[|s| - 1 - i]
  {
    seq(|s|, i requires 0 <= i < |s| => s[|s| - 1 - i])
  }

  /** `Address::from_str`: exactly six colon-separated hex bytes, stored
      last piece first; anything else is `ParseAddressError`. */
  function ParseAddress(t: Text): (r: Option<Address>)
    ensures r.Some? <==> |SplitN(t, 6)| == 6 && ParseParts(SplitN(t, 6)).Some?
    ensures r.Some? ==> r.value == Reverse(ParseParts(SplitN(t, 6)).value)
  {
    var parts := SplitN(t, 6);
    var bytes := ParseParts(parts);
    if bytes.None? || |parts| != 6 then None
    else
      var a: Address := Reverse(bytes.value);
      Some(a)
  }

  /** The printed pieces: the bytes from last to first, as two digits. */
  function AddressPieces(a: Address): (parts: seq<Text>)
    ensures |parts| == 6
    ensures forall i :: 0 <= i < 6 ==> parts[i] == Hex2(a[5 - i])
  {
    seq(6, i requires 0 <= i < 6 => Hex2(a[5 - i]))
  }

  /** `Display for Address`: the pieces joined with colons. */
  function DisplayAddress(a: Address): (t: Text)
    ensures |t| == 17
  {
    var p := AddressPieces(a);
    JoinUnfold(p);
    Join(p)
  }

  /** The six pieces with their five separating colons, spelt out. */
  lemma JoinUnfold(p: seq<Text>)
    requires |p| == 6
    ensures Join(p) == p[0] + ([':'] + (p[1] + ([':'] + (p[2] + ([':'] + (p[3] + ([':'] + (p[4] + ([':'] + p[5])))))))))
  {
    var p1 := p[1..];
    var p2 := p1[1..];
    var p3 := p2[1..];
    var p4 := p3[1..];
    var p5 := p4[1..];
    assert Join(p5) == p[5];
    JoinCons(p4);
    JoinCons(p3);
    JoinCons(p2);
    JoinCons(p1);
    JoinCons(p);
  }

  /** The first piece, a colon, then the rest joined. */
  lemma JoinCons(p: seq<Text>)
    requires |p| >= 2
    ensures Join(p) == p[0] + ([':'] + Join(p[1..]))
  {
  }

  /** Parsing what `Display` prints gives back the same address. */
  lemma ParseDisplayRoundTrip(a: Address)
    ensures ParseAddress(DisplayAddress(a)) == Some(a)
  {
    var parts := AddressPieces(a);
    SplitNJoin(parts, 6);
    ParsePieces(a);
    ReverseReverse(a);
  }

  /** Each printed piece reads back as its byte. */
  lemma ParsePieces(a: Address)
    ensures ParseParts(AddressPieces(a)) == Some(Reverse(a))
  {
    var parts := AddressPieces(a);
    forall i | 0 <= i < 6
      ensures ParseHexByte(parts[i]) == Some(a[5 - i])
    {
      ParseHex2(a[5 - i]);
    }
    var bs := ParseParts(parts);
    assert bs.Some?;
    assert bs.value == Reverse(a);
  }

  lemma ReverseReverse(s: bytes)
    ensures Reverse(Reverse(s)) == s
  {
  }

  /** The test vector: the address whose bytes are `55 44 33 22 11 00`
      prints as `00:11:22:33:44:55`... */
  lemma AddressDisplayExample()
    ensures DisplayAddress([0x55, 0x44, 0x33, 0x22, 0x11, 0x00]) == "00:11:22:33:44:55"
  {
    var a: Address := [0x55, 0x44, 0x33, 0x22, 0x11, 0x00];
    Hex2Examples();
    JoinExample(AddressPieces(a));
  }

  /** The colons go between the pieces of the test vector. */
  lemma JoinExample(p: seq<Text>)
    requires |p| == 6 && p[0] == "00" && p[1] == "11" && p[2] == "22"
    requires p[3] == "33" && p[4] == "44" && p[5] == "55"
    ensures Join(p) == "00:11:22:33:44:55"
  {
    JoinUnfold(p);
    var t4: Text := "44" + ([':'] + "55");
    assert t4 == "44:55";
    var t3: Text := "33" + ([':'] + t4);
    assert t3 == "33:44:55";
    var t2: Text := "22" + ([':'] + t3);
    assert t2 == "22:33:44:55";
    var t1: Text := "11" + ([':'] + t2);
    assert t1 == "11:22:33:44:55";
    var t0: Text := "00" + ([':'] + t1);
    assert t0 == "00:11:22:33:44:55";
  }

  lemma Hex2Examples()
    ensures Hex2(0x00) == "00" && Hex2(0x11) == "11" && Hex2(0x22) == "22"
    ensures Hex2(0x33) == "33" && Hex2(0x44) == "44" && Hex2(0x55) == "55"
  {
  }

  /** ... and that text parses back to the same bytes. */
  lemma AddressParseExample()
    ensures ParseAddress("00:11:22:33:44:55").Some?
    ensures ParseAddress("00:11:22:33:44:55").value == [0x55, 0x44, 0x33, 0x22, 0x11, 0x00]
  {
    AddressDisplayExample();
    ParseDisplayRoundTrip([0x55, 0x44, 0x33, 0x22, 0x11, 0x00]);
  }

  /** Text of fewer than six colon-separated pieces is rejected. */
  lemma TooFewPieces(parts: seq<Text>)
    requires 1 <= |parts| < 6
    requires forall i :: 0 <= i < |parts| ==> NoColon(parts[i])
    ensures ParseAddress(Join(parts)) == None
  {
    SplitNJoin(parts, 6);
  }

  /** Text of more than six pieces is rejected too: `splitn` leaves the
      surplus in the sixth piece, and its colon is not a hex digit. */
  lemma TooManyPieces(parts: seq<Text>)
    requires |parts| > 6
    requires forall i :: 0 <= i < |parts| ==> NoColon(parts[i])
    ensures ParseAddress(Join(parts)) == None
  {
    var last := Join(parts[5..]);
    var six := parts[..5] + [last];
    JoinLast(parts, 5);
    forall i | 0 <= i < |six| - 1
      ensures NoColon(six[i])
    {
      assert six[i] == parts[i];
    }
    SplitNJoin(six, 6);
    JoinCons(parts[5..]);
    assert parts[5..][0] == parts[5];
    assert !ParseHexByte(last).Some? by {
      var d := if |last| > 0 && last[0] == '+' then last[1..] else last;
      var k := |parts[5]|;
      assert last[k] == ':';
      if |last| > 0 && last[0] == '+' {
        assert k > 0 && d[k - 1] == ':';
      } else {
        assert d[k] == ':';
      }
      assert !AllHexDigits(d);
    }
    assert !ParseHexByte(six[5]).Some?;
  }

  /** Joining is unchanged when the pieces from `k` on are joined first. */
  lemma {:induction false} JoinLast(parts: seq<Text>, k: nat)
    requires k < |parts|
    ensures Join(parts[..k] + [Join(parts[k..])]) == Join(parts)
    decreases k
  {
    if k > 0 {
      var q := parts[..k] + [Join(parts[k..])];
      var tail := parts[1..];
      assert q[1..] == tail[..k - 1] + [Join(tail[k - 1..])] by {
        assert tail[k - 1..] == parts[k..];
      }
      JoinLast(tail, k - 1);
      JoinCons(q);
      JoinCons(parts);
    }
  }

  /** Splitting joined pieces into at most `n` pieces gives them back,
      when no piece but the last holds a colon, and the last holds none
      either if there is room for more pieces. */
  lemma {:induction false} SplitNJoin(parts: seq<Text>, n: nat)
    requires 1 <= |parts| <= n
    requires forall i :: 0 <= i < |parts| - 1 ==> NoColon(parts[i])
    requires |parts| < n ==> NoColon(parts[|parts| - 1])
    ensures SplitN(Join(parts), n) == parts
    decreases |parts|
  {
    if |parts| == 1 {
      if n > 1 {
        SplitNColonFree(parts[0], n);
      }
    } else {
      var tail := parts[1..];
      PiecesOfTail(parts, n);
      SplitNJoin(tail, n - 1);
      SplitNCons(parts, n);
    }
  }

  /** The tail of pieces `SplitNJoin` accepts is accepted one size down. */
  lemma PiecesOfTail(parts: seq<Text>, n: nat)
    requires 2 <= |parts| <= n
    requires forall i :: 0 <= i < |parts| - 1 ==> NoColon(parts[i])
    requires |parts| < n ==> NoColon(parts[|parts| - 1])
    ensures forall i :: 0 <= i < |parts[1..]| - 1 ==> NoColon(parts[1..][i])
    ensures |parts[1..]| < n - 1 ==> NoColon(parts[1..][|parts[1..]| - 1])
  {
    var tail := parts[1..];
    forall i | 0 <= i < |tail| - 1
      ensures NoColon(tail[i])
    {
      assert tail[i] == parts[i + 1];
    }
    assert tail[|tail| - 1] == parts[|parts| - 1];
  }

  /** One step of `SplitNJoin`: the first piece, then the split of the
      rest. */
  lemma SplitNCons(parts: seq<Text>, n: nat)
    requires 2 <= |parts| <= n && NoColon(parts[0])
    requires SplitN(Join(parts[1..]), n - 1) == parts[1..]
    ensures SplitN(Join(parts), n) == parts
  {
    assert Join(parts) == parts[0] + [':'] + Join(parts[1..]);
    SplitNStep(parts[0], Join(parts[1..]), n);
    assert [parts[0]] + parts[1..] == parts;
  }

  /** Text without a colon is a single piece. */
  lemma SplitNColonFree(t: Text, n: nat)
    requires n >= 1 && NoColon(t)
    ensures SplitN(t, n) == [t]
  {
    if n > 1 {
      assert FindColon(t).None?;
    }
  }

  /** The first piece ends at the first colon. */
  lemma SplitNStep(p: Text, rest: Text, n: nat)
    requires n >= 2 && NoColon(p)
    ensures SplitN(p + [':'] + rest, n) == [p] + SplitN(rest, n - 1)
  {
    var t := p + [':'] + rest;
    FindColonAfter(p, rest);
    assert t[|p| + 1..] == rest;
    assert t[..|p|] == p;
  }
}
