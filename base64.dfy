/** Standard padded base64 (section 4 of RFC 4648), the encoding with which
    `IdentToString` turns identity hashes into mailbox and local-user keys.
    `Decode` is the inverse used to prove that the encoding is injective. */
module Base64 {
  import opened Protocol

  /** The characters of the standard alphabet: A-Z, a-z, 0-9, '+' and '/'. */
  predicate IsAlphabetChar(c: char) {
    ('A' <= c <= 'Z') || ('a' <= c <= 'z') || ('0' <= c <= '9') || c == '+' || c == '/'
  }

  /** The alphabet entry for a 6-bit value. */
  function Char(i: int): (c: char)
    requires 0 <= i < 64
    ensures IsAlphabetChar(c) && c != '='
  {
    if i < 26 then ('A' as int + i) as char
    else if i < 52 then ('a' as int + (i - 26)) as char
    else if i < 62 then ('0' as int + (i - 52)) as char
    else if i == 62 then '+'
    else '/'
  }

  /** The 6-bit value of an alphabet character; the inverse of `Char`. */
  function Index(c: char): (i: int)
    requires IsAlphabetChar(c)
    ensures 0 <= i < 64 && Char(i) == c
  {
    if 'A' <= c <= 'Z' then c as int - 'A' as int
    else if 'a' <= c <= 'z' then c as int - 'a' as int + 26
    else if '0' <= c <= '9' then c as int - '0' as int + 52
    else if c == '+' then 62
    else 63
  }

  lemma IndexOfChar(i: int)
    requires 0 <= i < 64
    ensures Index(Char(i)) == i
  {
  }

  /** Number of trailing '=' for an input of n bytes: 0, 2 or 1 when n mod 3 is 0, 1 or 2. */
  function PadCount(n: nat): nat {
    if n % 3 == 0 then 0 else if n % 3 == 1 then 2 else 1
  }

  /** Values that are all 6-bit, so that each has an alphabet entry. */
  predicate Sextets(vals: seq<int>) {
    forall i :: 0 <= i < |vals| ==> 0 <= vals[i] < 64
  }

  /** The 6-bit values of a full group of three bytes. */
  function Group(b0: byte, b1: byte, b2: byte): (v: seq<int>)
    ensures |v| == 4 && Sextets(v)
  {
    [b0 / 4, (b0 % 4) * 16 + b1 / 16, (b1 % 16) * 4 + b2 / 64, b2 % 64]
  }

  /** The 6-bit values of a final group of one byte, zero-filled. */
  function GroupOne(b0: byte): (v: seq<int>)
    ensures |v| == 2 && Sextets(v)
  {
    [b0 / 4, (b0 % 4) * 16]
  }

  /** The 6-bit values of a final group of two bytes, zero-filled. */
  function GroupTwo(b0: byte, b1: byte): (v: seq<int>)
    ensures |v| == 3 && Sextets(v)
  {
    [b0 / 4, (b0 % 4) * 16 + b1 / 16, (b1 % 16) * 4]
  }

  /** The alphabet entries of a run of 6-bit values. */
  function Chars(vals: seq<int>): string
    requires Sextets(vals)
    decreases |vals|
  {
    if vals == [] then [] else [Char(vals[0])] + Chars(vals[1..])
  }

  /** `r` is alphabet characters followed by exactly `pad` '=' characters. */
  predicate Padded(r: string, pad: nat) {
    && pad <= |r|
    && (forall k :: 0 <= k < |r| - pad ==> IsAlphabetChar(r[k]))
    && (forall k :: |r| - pad <= k < |r| ==> r[k] == '=')
  }

  /** `Chars` maps the values one by one to alphabet characters. */
  lemma {:induction false} CharsAt(vals: seq<int>)
    requires Sextets(vals)
    ensures |Chars(vals)| == |vals|
    ensures forall i :: 0 <= i < |vals| ==> Chars(vals)[i] == Char(vals[i])
    ensures Padded(Chars(vals), 0)
    decreases |vals|
  {
    if vals != [] {
      CharsAt(vals[1..]);
      var r := Chars(vals);
      forall i | 0 < i < |vals| ensures r[i] == Char(vals[i]) {
        assert r[i] == Chars(vals[1..])[i - 1];
      }
    }
  }

  /** An unpadded block followed by a padded tail is padded like the tail. */
  lemma PaddedConcat(b: string, t: string, pad: nat)
    requires Padded(b, 0) && Padded(t, pad)
    ensures Padded(b + t, pad)
  {
    var r := b + t;
    forall k | 0 <= k < |r| - pad ensures IsAlphabetChar(r[k]) {
      if k >= |b| { assert r[k] == t[k - |b|]; }
    }
    forall k | |r| - pad <= k < |r| ensures r[k] == '=' {
      assert r[k] == t[k - |b|];
    }
  }

  /** Padded base64 of `s`: full three-byte groups, then a final group of one
      byte ("xx==") or two bytes ("xxx="). */
  function Encode(s: Bytes): string
    decreases |s|
  {
    if |s| == 0 then []
    else if |s| == 1 then Chars(GroupOne(s[0])) + "=="
    else if |s| == 2 then Chars(GroupTwo(s[0], s[1])) + "="
    else Chars(Group(s[0], s[1], s[2])) + Encode(s[3..])
  }

  /** Four characters for every started group of three bytes. */
  lemma {:induction false} EncodeLength(s: Bytes)
    ensures |Encode(s)| == 4 * ((|s| + 2) / 3)
    decreases |s|
  {
    if |s| == 1 {
      CharsAt(GroupOne(s[0]));
    } else if |s| == 2 {
      CharsAt(GroupTwo(s[0], s[1]));
    } else if |s| >= 3 {
      CharsAt(Group(s[0], s[1], s[2]));
      EncodeLength(s[3..]);
    }
  }

  /** Alphabet entries followed by '=' characters only are padded by those. */
  lemma CharsThenPadded(vals: seq<int>, t: string)
    requires Sextets(vals)
    requires Padded(t, |t|)
    ensures Padded(Chars(vals) + t, |t|)
  {
    CharsAt(vals);
    PaddedConcat(Chars(vals), t, |t|);
  }

  /** Every character of `Encode(s)` is an alphabet character, except the last
      `PadCount(|s|)`, which are '='. */
  lemma {:induction false} EncodeShape(s: Bytes)
    ensures Padded(Encode(s), PadCount(|s|))
    decreases |s|
  {
    if |s| == 1 {
      CharsThenPadded(GroupOne(s[0]), "==");
    } else if |s| == 2 {
      CharsThenPadded(GroupTwo(s[0], s[1]), "=");
    } else if |s| >= 3 {
      EncodeShape(s[3..]);
      EncodeShapeStep(s);
    }
  }

  /** A full group in front keeps the padding of the rest. */
  lemma EncodeShapeStep(s: Bytes)
    requires |s| >= 3 && Padded(Encode(s[3..]), PadCount(|s| - 3))
    ensures Padded(Encode(s), PadCount(|s|))
  {
    assert PadCount(|s|) == PadCount(|s| - 3);
    CharsAt(Group(s[0], s[1], s[2]));
    PaddedConcat(Chars(Group(s[0], s[1], s[2])), Encode(s[3..]), PadCount(|s|));
  }

  /** The 6-bit value of a character, 0 for a character outside the alphabet. */
  function Value(c: char): (v: int)
    ensures 0 <= v < 64
  {
    if IsAlphabetChar(c) then Index(c) else 0
  }

  /** Decoding of padded base64, the inverse of `Encode`. */
  function Decode(t: string): Bytes
    decreases |t|
  {
    if |t| < 4 then []
    else
      var c0, c1, c2, c3 := Value(t[0]), Value(t[1]), Value(t[2]), Value(t[3]);
      if t[2] == '=' then [c0 * 4 + c1 / 16]
      else if t[3] == '=' then [c0 * 4 + c1 / 16, (c1 % 16) * 16 + c2 / 4]
      else [c0 * 4 + c1 / 16, (c1 % 16) * 16 + c2 / 4, (c2 % 4) * 64 + c3] + Decode(t[4..])
  }

  lemma SplitFirst(b0: byte, b1: int)
    requires 0 <= b1 < 16
    ensures ((b0 % 4) * 16 + b1) / 16 == b0 % 4 && ((b0 % 4) * 16 + b1) % 16 == b1
    ensures (b0 / 4) * 4 + b0 % 4 == b0
  {
  }

  lemma SplitSecond(b1: byte, b2: int)
    requires 0 <= b2 < 4
    ensures ((b1 % 16) * 4 + b2) / 4 == b1 % 16 && ((b1 % 16) * 4 + b2) % 4 == b2
    ensures (b1 / 16) * 16 + b1 % 16 == b1
  {
  }

  lemma SplitThird(b2: byte)
    ensures (b2 / 64) * 64 + b2 % 64 == b2
  {
  }

  /** Each character of `Chars(vals)` decodes to its value. */
  lemma ValuesOfChars(vals: seq<int>)
    requires Sextets(vals)
    ensures |Chars(vals)| == |vals|
    ensures forall i :: 0 <= i < |vals| ==> Value(Chars(vals)[i]) == vals[i]
  {
    CharsAt(vals);
    forall i | 0 <= i < |vals| ensures Value(Chars(vals)[i]) == vals[i] {
      IndexOfChar(vals[i]);
    }
  }

  /** The decoding arithmetic gives back the three bytes of a full group. */
  lemma GroupBack(b0: byte, b1: byte, b2: byte)
    ensures var g := Group(b0, b1, b2);
      g[0] * 4 + g[1] / 16 == b0 && (g[1] % 16) * 16 + g[2] / 4 == b1 && (g[2] % 4) * 64 + g[3] == b2
  {
    SplitFirst(b0, b1 / 16);
    SplitSecond(b1, b2 / 64);
    SplitThird(b2);
  }

  /** The three bytes of a full group come back from its four characters. */
  lemma DecodeBlock(b0: byte, b1: byte, b2: byte, rest: string)
    ensures Decode(Chars(Group(b0, b1, b2)) + rest) == [b0, b1, b2] + Decode(rest)
  {
    var g := Group(b0, b1, b2);
    ValuesOfChars(g);
    CharsAt(g);
    var t := Chars(g) + rest;
    assert t[4..] == rest;
    assert Value(t[0]) == g[0] && Value(t[1]) == g[1] && Value(t[2]) == g[2] && Value(t[3]) == g[3];
    assert t[2] != '=' && t[3] != '=';
    GroupBack(b0, b1, b2);
  }

  /** A final group of one byte comes back from "xx==". */
  lemma DecodeOne(b0: byte)
    ensures Decode(Chars(GroupOne(b0)) + "==") == [b0]
  {
    var g := GroupOne(b0);
    ValuesOfChars(g);
    var t := Chars(g) + "==";
    assert Value(t[0]) == g[0] && Value(t[1]) == g[1] && t[2] == '=';
    SplitFirst(b0, 0);
  }

  /** A final group of two bytes comes back from "xxx=". */
  lemma DecodeTwo(b0: byte, b1: byte)
    ensures Decode(Chars(GroupTwo(b0, b1)) + "=") == [b0, b1]
  {
    var g := GroupTwo(b0, b1);
    ValuesOfChars(g);
    var t := Chars(g) + "=";
    assert Value(t[0]) == g[0] && Value(t[1]) == g[1] && Value(t[2]) == g[2] && t[3] == '=';
    assert t[2] != '=' by { CharsAt(g); }
    SplitFirst(b0, b1 / 16);
    SplitSecond(b1, 0);
  }

  /** Decoding an encoding gives back the bytes. */
  lemma {:induction false} DecodeEncode(s: Bytes)
    ensures Decode(Encode(s)) == s
    decreases |s|
  {
    if |s| == 1 {
      DecodeOne(s[0]);
    } else if |s| == 2 {
      DecodeTwo(s[0], s[1]);
    } else if |s| >= 3 {
      var rest := Encode(s[3..]);
      DecodeBlock(s[0], s[1], s[2], rest);
      DecodeEncode(s[3..]);
      assert s == [s[0], s[1], s[2]] + s[3..];
    }
  }

  /** Distinct byte strings have distinct encodings. */
  lemma EncodeInjective(x: Bytes, y: Bytes)
    requires Encode(x) == Encode(y)
    ensures x == y
  {
    DecodeEncode(x);
    DecodeEncode(y);
  }
}
