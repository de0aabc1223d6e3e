/**
 The hexadecimal spellings of a certificate serial number that the `ca` and
 `ocsp` programs must agree on: the text of an index row, the key of a lookup,
 the operand of `-status` and the stem of a new certificate's file name.
 */
module SerialText {
  import opened Wrappers

  // ----- big numbers as text (BN_bn2hex, BN_hex2bn) -----

  function Digit(d: nat): (c: char)
    requires d < 16
    ensures '0' <= c <= '9' || 'A' <= c <= 'F'
    ensures DigitValue(c) == d
    ensures c == '0' <==> d == 0
  {
    if d < 10 then '0' + d as char else 'A' + (d - 10) as char
  }

  function HexOfByte(b: nat): (s: string)
    requires b < 256
    ensures |s| == 2 && UpperHex(s)
  {
    [Digit(b / 16), Digit(b % 16)]
  }

  /** The digits of `n` byte by byte, leading zero bytes skipped. */
  function HexOfNat(n: nat): (s: string)
    ensures UpperHex(s) && |s| % 2 == 0
    ensures n > 0 ==> |s| >= 2
  {
    if n == 0 then "" else HexOfNat(n / 256) + HexOfByte(n % 256)
  }

  /** `BN_bn2hex`: an even number of digits, except that zero is a single one. */
  function BnToHex(n: int): string
    decreases if n < 0 then 1 else 0
  {
    if n == 0 then "0"
    else if n < 0 then "-" + BnToHex(-n)
    else HexOfNat(n)
  }

  /** The text of a serial in an index row and in a lookup. */
  function Serial(n: int): string {
    if n == 0 then "00" else BnToHex(n)
  }

  predicate IsHexDigit(c: char) {
    '0' <= c <= '9' || 'A' <= c <= 'F' || 'a' <= c <= 'f'
  }

  predicate AllHex(s: string) {
    forall i :: 0 <= i < |s| ==> IsHexDigit(s[i])
  }

  predicate UpperHex(s: string) {
    forall i :: 0 <= i < |s| ==> '0' <= s[i] <= '9' || 'A' <= s[i] <= 'F'
  }

  function DigitValue(c: char): (d: nat)
    requires IsHexDigit(c)
    ensures d < 16
  {
    if c <= '9' then (c - '0') as nat
    else if c <= 'F' then (c - 'A') as nat + 10
    else (c - 'a') as nat + 10
  }

  /** The number a string of hexadecimal digits spells. */
  function Value(s: string): nat
    requires AllHex(s)
  {
    if s == "" then 0 else 16 * Value(s[..|s| - 1]) + DigitValue(s[|s| - 1])
  }

  /** The leading hexadecimal digits of `s`. */
  function HexPrefix(s: string): (p: string)
    ensures AllHex(p)
  {
    if s != "" && IsHexDigit(s[0]) then [s[0]] + HexPrefix(s[1..]) else ""
  }

  /** `BN_hex2bn`: an optional minus sign and at least one digit; the rest is ignored. */
  function HexToBn(s: string): Option<int> {
    var neg := s != "" && s[0] == '-';
    var p := HexPrefix(if neg then s[1..] else s);
    if p == "" then None else Some(if neg then -(Value(p) as int) else Value(p))
  }

  // ----- index keys (index_serial_cmp, get_certificate_status) -----

  /** `index_serial_cmp` compares what is left after the leading zeros. */
  function Key(s: string): string {
    if s != "" && s[0] == '0' then Key(s[1..]) else s
  }

  function UpperChar(c: char): char {
    if 'a' <= c <= 'z' then 'A' + (c - 'a') else c
  }

  function Upper(s: string): (u: string)
    ensures |u| == |s|
    ensures forall i :: 0 <= i < |s| ==> u[i] == UpperChar(s[i])
  {
    seq(|s|, i requires 0 <= i < |s| => UpperChar(s[i]))
  }

  /** `get_certificate_status` pads an odd number of characters and folds to upper case. */
  function StatusKey(q: string): string {
    Upper(if |q| % 2 == 1 then "0" + q else q)
  }

  /** The digits of `n` with none to spare; the empty string for zero. */
  function Shortest(n: nat): (s: string)
    ensures UpperHex(s)
    ensures s == "" <==> n == 0
    ensures s != "" ==> s[0] != '0'
  {
    if n == 0 then "" else Shortest(n / 16) + [Digit(n % 16)]
  }

  // ----- properties -----

  /** Dropping leading zeros does not change the number. */
  lemma {:induction false} KeyKeepsValue(s: string)
    requires AllHex(s)
    ensures AllHex(Key(s))
    ensures Value(Key(s)) == Value(s)
  {
    if s != "" && s[0] == '0' {
      ZeroInFront(s[1..]);
      assert s == ['0'] + s[1..];
      KeyKeepsValue(s[1..]);
    }
  }

  lemma {:induction false} ZeroInFront(t: string)
    requires AllHex(t)
    ensures AllHex(['0'] + t) && Value(['0'] + t) == Value(t)
  {
    var z := ['0'] + t;
    assert AllHex(z);
    if t == "" {
      assert z[..|z| - 1] == "";
    } else {
      assert z[..|z| - 1] == ['0'] + t[..|t| - 1];
      ZeroInFront(t[..|t| - 1]);
    }
  }

  lemma {:induction false} KeyOfAppend(t: string, c: char)
    ensures Key(t + [c]) == if Key(t) == "" && c == '0' then "" else Key(t) + [c]
  {
    if t != "" && t[0] == '0' {
      assert (t + [c])[1..] == t[1..] + [c];
      KeyOfAppend(t[1..], c);
    } else if t == "" {
      assert (t + [c])[1..] == "";
    }
  }

  lemma ShortestAppend(v: nat, c: char)
    requires UpperHex([c])
    ensures IsHexDigit(c)
    ensures Shortest(16 * v + DigitValue(c)) == if v == 0 && c == '0' then "" else Shortest(v) + [c]
  {
    assert '0' <= [c][0] <= '9' || 'A' <= [c][0] <= 'F';
    var d := DigitValue(c);
    assert Digit(d) == c;
    assert (16 * v + d) / 16 == v && (16 * v + d) % 16 == d;
  }

  /** Every upper-case spelling of a number has the same index key. */
  lemma {:induction false} KeyIsShortest(s: string)
    requires UpperHex(s)
    ensures AllHex(s) && Key(s) == Shortest(Value(s))
  {
    if s != "" {
      var t, c := s[..|s| - 1], s[|s| - 1];
      assert s == t + [c];
      KeyIsShortest(t);
      KeyOfAppend(t, c);
      ShortestAppend(Value(t), c);
    }
  }

  lemma ValueOfTwo(t: string, b: nat)
    requires AllHex(t) && b < 256
    ensures AllHex(t + HexOfByte(b)) && Value(t + HexOfByte(b)) == 256 * Value(t) + b
  {
    var s := t + HexOfByte(b);
    var hi := s[..|s| - 1];
    assert hi == t + [Digit(b / 16)];
    assert hi[..|hi| - 1] == t;
    assert AllHex(hi) && AllHex(s);
    assert Value(hi) == 16 * Value(t) + b / 16;
  }

  lemma {:induction false} HexOfNatSpells(n: nat)
    ensures AllHex(HexOfNat(n)) && Value(HexOfNat(n)) == n
  {
    if n > 0 {
      HexOfNatSpells(n / 256);
      ValueOfTwo(HexOfNat(n / 256), n % 256);
    }
  }

  /** The stored text spells the serial, sign included. */
  lemma SerialSpells(n: int)
    ensures HexToBn(Serial(n)) == Some(n)
  {
    if n >= 0 {
      SerialSpellsNat(n);
      BareText(Serial(n));
    } else {
      NegativeSpells(n);
    }
  }

  lemma NegativeSpells(n: int)
    requires n < 0
    ensures HexToBn(Serial(n)) == Some(n) && SerialSyntax(Serial(n))
  {
    SerialSpellsNat(-n);
    MinusText(BnToHex(-n), -n);
  }

  /** What the parser and the loader make of an even run of digits. */
  lemma BareText(h: string)
    requires AllHex(h) && |h| >= 2 && |h| % 2 == 0
    ensures HexToBn(h) == Some(Value(h)) && SerialSyntax(h)
  {
    PrefixOfAllHex(h);
    assert IsHexDigit(h[0]);
  }

  lemma MinusText(h: string, m: nat)
    requires AllHex(h) && |h| >= 2 && |h| % 2 == 0 && Value(h) == m
    ensures HexToBn("-" + h) == Some(-(m as int)) && SerialSyntax("-" + h)
  {
    assert ("-" + h)[1..] == h;
    PrefixOfAllHex(h);
  }

  lemma SerialSpellsNat(n: nat)
    ensures UpperHex(Serial(n)) && AllHex(Serial(n)) && |Serial(n)| >= 2 && |Serial(n)| % 2 == 0
    ensures Value(Serial(n)) == n
  {
    if n == 0 {
      assert HexOfByte(0) == "00" && "" + "00" == "00";
      ValueOfTwo("", 0);
    } else {
      HexOfNatSpells(n);
    }
  }

  lemma {:induction false} PrefixOfAllHex(s: string)
    requires AllHex(s)
    ensures HexPrefix(s) == s
  {
    if s != "" { PrefixOfAllHex(s[1..]); }
  }

  /** Texts with equal keys denote equal numbers. */
  lemma EqualKeysEqualValues(s: string, t: string)
    requires SerialSyntax(s) && SerialSyntax(t) && Key(s) == Key(t)
    ensures HexToBn(s) == HexToBn(t) && HexToBn(s).Some?
  {
    if s[0] != '-' && t[0] != '-' {
      KeyKeepsValue(s); KeyKeepsValue(t);
      PrefixOfAllHex(s); PrefixOfAllHex(t);
    } else if s[0] == '-' && t[0] == '-' {
      PrefixOfAllHex(s[1..]);
    } else if s[0] == '-' {
      KeyOfHex(t);
    } else {
      KeyOfHex(s);
    }
  }

  lemma {:induction false} KeyOfHex(s: string)
    requires AllHex(s)
    ensures Key(s) == "" || Key(s)[0] != '-'
  {
    if s != "" && s[0] == '0' { KeyOfHex(s[1..]); }
  }

  /** The serial check of the loader: an optional minus sign and a positive even number of digits. */
  predicate SerialSyntax(s: string) {
    var p := if s != "" && s[0] == '-' then s[1..] else s;
    |p| % 2 == 0 && |p| >= 2 && AllHex(p)
  }

  lemma SerialHasSyntax(n: int)
    ensures SerialSyntax(Serial(n))
  {
    if n < 0 {
      NegativeSpells(n);
    } else {
      SerialSpellsNat(n);
      BareText(Serial(n));
    }
  }

  /** Different serials have different index keys, so also different texts. */
  lemma SerialInjective(m: int, n: int)
    requires Key(Serial(m)) == Key(Serial(n))
    ensures m == n
  {
    SerialHasSyntax(m); SerialHasSyntax(n);
    EqualKeysEqualValues(Serial(m), Serial(n));
    SerialSpells(m); SerialSpells(n);
  }

  lemma {:induction false} UpperKeepsValue(s: string)
    requires AllHex(s)
    ensures UpperHex(Upper(s)) && AllHex(Upper(s)) && Value(Upper(s)) == Value(s)
  {
    if s != "" {
      UpperKeepsValue(s[..|s| - 1]);
      assert Upper(s)[..|s| - 1] == Upper(s[..|s| - 1]);
    }
  }

  /** Every hexadecimal spelling given to `-status`, in any letter case and with
      any number of leading zeros, looks up the serial it denotes. */
  lemma StatusFindsSerial(q: string)
    requires AllHex(q)
    ensures Key(StatusKey(q)) == Key(Serial(Value(q)))
  {
    var p := if |q| % 2 == 1 then "0" + q else q;
    ZeroInFront(q);
    assert "0" + q == ['0'] + q;
    UpperKeepsValue(p);
    KeyIsShortest(Upper(p));
    SerialSpellsNat(Value(q));
    KeyIsShortest(Serial(Value(q)));
  }

  lemma {:induction false} ShortestSpells(n: nat)
    ensures AllHex(Shortest(n)) && Value(Shortest(n)) == n
  {
    if n > 0 {
      ShortestSpells(n / 16);
      var s := Shortest(n);
      assert s[..|s| - 1] == Shortest(n / 16);
    }
  }

  lemma {:induction false} KeyDropsZeros(s: string)
    ensures |Key(s)| <= |s| && Key(s) == s[|s| - |Key(s)|..]
    ensures forall i :: 0 <= i < |s| - |Key(s)| ==> s[i] == '0'
  {
    if s != "" && s[0] == '0' { KeyDropsZeros(s[1..]); }
  }

  /** The stored text of a positive serial is its shortest spelling, padded to even length. */
  lemma SerialFromShortest(n: nat)
    requires n > 0
    ensures var k := Shortest(n); Serial(n) == if |k| % 2 == 1 then "0" + k else k
  {
    SerialSpellsNat(n);
    KeyIsShortest(Serial(n));
    FirstByteNotZero(n);
    PaddedKey(Serial(n));
  }

  lemma {:induction false} FirstByteNotZero(n: nat)
    requires n > 0
    ensures HexOfNat(n)[0] != '0' || HexOfNat(n)[1] != '0'
  {
    if n < 256 {
      assert HexOfNat(n / 256) == "";
    } else {
      FirstByteNotZero(n / 256);
    }
  }

  lemma PaddedKey(s: string)
    requires |s| >= 2 && |s| % 2 == 0 && (s[0] != '0' || s[1] != '0')
    ensures s == if |Key(s)| % 2 == 1 then "0" + Key(s) else Key(s)
  {
    KeyDropsZeros(s);
    var k := Key(s);
    assert |s| - |k| <= 1;
    assert |s| == |k| ==> s == k;
    assert |s| == |k| + 1 ==> s == [s[0]] + k;
  }

  /** The shortest spelling of a serial in any letter case normalises to the very text stored in the row. */
  lemma StatusTextIsStoredText(n: nat, q: string)
    requires Upper(q) == if n == 0 then "0" else Shortest(n)
    ensures StatusKey(q) == Serial(n)
  {
    assert Upper("0" + q) == "0" + Upper(q);
    if n > 0 { SerialFromShortest(n); }
  }

  /** A text whose index key is the one that the number it denotes is looked up by. */
  predicate Keyed(s: string) {
    HexToBn(s).Some? && Key(s) == Key(Serial(HexToBn(s).value))
  }

  lemma SerialIsKeyed(n: int)
    ensures Keyed(Serial(n))
  {
    SerialSpells(n);
  }

  /** Of the texts that pass the loader, exactly these are found by their number: upper-case
      digits, and after a minus sign no leading zero byte. */
  lemma KeyedExact(s: string)
    requires SerialSyntax(s)
    ensures Keyed(s) <==> if s[0] == '-' then UpperHex(s[1..]) && !(s[1] == '0' && s[2] == '0') else UpperHex(s)
  {
    if s[0] == '-' { KeyedNegative(s[1..]); assert s == "-" + s[1..]; } else { KeyedBare(s); }
  }

  lemma KeyedBare(s: string)
    requires AllHex(s) && |s| >= 2 && |s| % 2 == 0
    ensures Keyed(s) <==> UpperHex(s)
  {
    BareText(s);
    SerialSpellsNat(Value(s));
    KeyIsShortest(Serial(Value(s)));
    if UpperHex(s) { KeyIsShortest(s); } else { KeyNotUpper(s); }
  }

  lemma KeyNotUpper(s: string)
    requires !UpperHex(s)
    ensures !UpperHex(Key(s))
  {
    KeyDropsZeros(s);
    var z := |s| - |Key(s)|;
    assert forall i :: z <= i < |s| ==> s[i] == Key(s)[i - z];
  }

  lemma KeyedNegative(h: string)
    requires AllHex(h) && |h| >= 2 && |h| % 2 == 0
    ensures Keyed("-" + h) <==> UpperHex(h) && !(h[0] == '0' && h[1] == '0')
  {
    if Value(h) > 0 {
      KeyedBelowZero(h, Value(h));
      StoredText(h, Value(h));
    } else {
      MinusZeroIsNotKeyed(h);
      if UpperHex(h) { ZeroText(h); }
    }
  }

  lemma KeyedBelowZero(h: string, m: nat)
    requires AllHex(h) && |h| >= 2 && |h| % 2 == 0 && Value(h) == m > 0
    ensures Keyed("-" + h) <==> h == Serial(m)
  {
    MinusText(h, m);
    MinusKey(h);
    MinusKey(Serial(m));
    assert Serial(-(m as int)) == "-" + Serial(m);
  }

  lemma MinusZeroIsNotKeyed(h: string)
    requires AllHex(h) && |h| >= 2 && |h| % 2 == 0 && Value(h) == 0
    ensures !Keyed("-" + h)
  {
    MinusText(h, 0);
    MinusKey(h);
    ZeroKey();
  }

  lemma ZeroText(h: string)
    requires AllHex(h) && |h| >= 2 && Value(h) == 0 && UpperHex(h)
    ensures h[0] == '0' && h[1] == '0'
  {
    KeyIsShortest(h);
    KeyDropsZeros(h);
  }

  lemma MinusKey(h: string)
    ensures Key("-" + h) == "-" + h && ("-" + h)[1..] == h
  {
  }

  /** A spelling of a positive number is its stored text exactly when it is in upper case and
      has no leading zero byte. */
  lemma StoredText(h: string, m: nat)
    requires AllHex(h) && |h| >= 2 && |h| % 2 == 0 && Value(h) == m > 0
    ensures h == Serial(m) <==> UpperHex(h) && !(h[0] == '0' && h[1] == '0')
  {
    FirstByteNotZero(m);
    SerialFromShortest(m);
    if UpperHex(h) && !(h[0] == '0' && h[1] == '0') {
      KeyIsShortest(h);
      PaddedKey(h);
    }
  }

  lemma ZeroKey()
    ensures Key(Serial(0)) == ""
  {
    assert "00"[1..] == "0" && "0"[1..] == "";
  }

  // ----- the file name of a new certificate -----

  /** The big-endian bytes of `n` with no leading zero byte; none for zero. */
  function Magnitude(n: nat): (b: seq<nat>)
    ensures forall i :: 0 <= i < |b| ==> b[i] < 256
    ensures |b| > 0 <==> n > 0
    ensures |b| > 0 ==> b[0] > 0
  {
    if n == 0 then [] else Magnitude(n / 256) + [n % 256]
  }

  /** Two upper-case digits for every byte. */
  function HexOfBytes(b: seq<nat>): (s: string)
    requires forall i :: 0 <= i < |b| ==> b[i] < 256
    ensures |s| == 2 * |b|
    ensures UpperHex(s)
  {
    if b == [] then ""
    else
      HexOfBytes(b[..|b| - 1]) + HexOfByte(b[|b| - 1])
  }

  /** The content bytes of the ASN.1 INTEGER of `n`: one zero byte for zero. */
  function IntegerBytes(n: nat): (b: seq<nat>)
    ensures forall i :: 0 <= i < |b| ==> b[i] < 256
  {
    if n == 0 then [0] else Magnitude(n)
  }

  /** The file stem is the text of the index row. */
  lemma FileStemIsSerial(n: nat)
    ensures HexOfBytes(IntegerBytes(n)) == Serial(n)
  {
    if n == 0 {
      assert HexOfBytes([0]) == "00" by { assert [0][..0] == []; }
    } else {
      HexOfMagnitude(n);
    }
  }

  lemma {:induction false} HexOfMagnitude(n: nat)
    ensures HexOfBytes(Magnitude(n)) == HexOfNat(n)
  {
    if n > 0 {
      HexOfMagnitude(n / 256);
      var b := Magnitude(n);
      assert b[..|b| - 1] == Magnitude(n / 256);
    }
  }

  /** `strlcpy` of the directory and `strlcat` of a slash into `size` characters:
      the text left in the buffer and the length returned. */
  function DirectoryPrefix(outdir: string, size: nat): (r: (string, nat))
    requires size > 1
    ensures |r.0| < size
  {
    var d := if |outdir| < size then outdir else outdir[..size - 1];
    (if |d| + 1 < size then d + "/" else d, |d| + 1)
  }

  method WriteByte(newCert: array<char>, at: nat, b: nat)
    requires b < 256 && at + 2 <= newCert.Length
    modifies newCert
    ensures newCert[..at + 2] == old(newCert[..at]) + HexOfByte(b)
  {
    newCert[at] := Digit(b / 16);
    newCert[at + 1] := Digit(b % 16);
    assert newCert[..at] == old(newCert[..at]) && newCert[at..at + 2] == HexOfByte(b);
    assert newCert[..at + 2] == newCert[..at] + newCert[at..at + 2];
  }

  /** The digits of the serial, written from position `at`. */
  method WriteStem(newCert: array<char>, at: nat, serial: seq<nat>) returns (n: nat)
    requires forall i :: 0 <= i < |serial| ==> serial[i] < 256
    requires at + 2 * |serial| <= newCert.Length
    modifies newCert
    ensures n == at + 2 * |serial|
    ensures newCert[..n] == old(newCert[..at]) + HexOfBytes(serial)
  {
    n := at;
    var j := 0;
    while j < |serial|
      invariant 0 <= j <= |serial|
      invariant n == at + 2 * j
      invariant newCert[..n] == old(newCert[..at]) + HexOfBytes(serial[..j])
    {
      assert serial[..j + 1][..j] == serial[..j];
      WriteByte(newCert, n, serial[j]);
      n := n + 2;
      j := j + 1;
    }
    assert serial[..j] == serial;
  }

  method WriteText(newCert: array<char>, at: nat, text: string)
    requires at + |text| <= newCert.Length
    modifies newCert
    ensures newCert[..at + |text|] == old(newCert[..at]) + text
  {
    for k := 0 to |text|
      invariant newCert[..at + k] == old(newCert[..at]) + text[..k]
    {
      newCert[at + k] := text[k];
    }
  }

  /** Writes the path of a new certificate into the fixed buffer. Every character
      of the name, the terminator included, lands inside the buffer, and the name
      is refused exactly when the whole path with its terminator does not fit. */
  method BuildCertificatePath(newCert: array<char>, outdir: string, serial: seq<nat>) returns (ok: bool)
    requires newCert.Length > 1
    requires forall i :: 0 <= i < |serial| ==> serial[i] < 256
    modifies newCert
    ensures var path := outdir + "/" + (if serial == [] then "00" else HexOfBytes(serial)) + ".pem";
      && ok == (|path| + 1 <= newCert.Length)
      && (ok ==> newCert[..|path| + 1] == path + ['\0'])
  {
    var (prefix, outdirlen) := DirectoryPrefix(outdir, newCert.Length);
    WriteText(newCert, 0, prefix);
    var nameLen := 2 * (if |serial| > 0 then |serial| else 1) + 5;
    if outdirlen + nameLen > newCert.Length {
      return false;
    }
    assert newCert[..outdirlen] == outdir + "/";
    var n;
    if |serial| > 0 {
      n := WriteStem(newCert, outdirlen, serial);
    } else {
      WriteText(newCert, outdirlen, "00");
      n := outdirlen + 2;
    }
    ghost var stem := if serial == [] then "00" else HexOfBytes(serial);
    assert newCert[..n] == outdir + "/" + stem;
    WriteText(newCert, n, ".pem\0");
    assert outdir + "/" + stem + ".pem\0" == outdir + "/" + stem + ".pem" + ['\0'];
    ok := true;
  }
}
