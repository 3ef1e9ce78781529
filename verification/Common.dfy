/** Failure-carrying values and the text helpers shared by the models. */
module Common {
  datatype Option<+T> = None | Some(value: T)

  datatype Result<+T, +E> = Ok(value: T) | Err(error: E)

  type Byte = b: int | 0 <= b < 256

  /** No two items have the same key. */
  ghost predicate DistinctBy<T, K(!new)>(key: T -> K, items: seq<T>) {
    forall i, j :: 0 <= i < j < |items| ==> key(items[i]) != key(items[j])
  }

  function Min(a: int, b: int): (r: int)
    ensures r <= a && r <= b && (r == a || r == b)
  {
    if a < b then a else b
  }

  /** `str::contains`. */
  predicate Contains(s: string, part: string)
    ensures part <= s ==> Contains(s, part)
  {
    part <= s || (s != "" && Contains(s[1..], part))
  }

  lemma {:induction false} ContainsAt(before: string, part: string, after: string)
    ensures Contains(before + part + after, part)
  {
    var s := before + part + after;
    if before == "" {
      assert s == part + after;
    } else {
      ContainsAt(before[1..], part, after);
      assert s[1..] == before[1..] + part + after;
    }
  }

  /** `part` occurs somewhere in `s`. */
  lemma {:induction false} ContainsExactly(s: string, part: string)
    ensures Contains(s, part) <==> exists i :: 0 <= i <= |s| && part <= s[i..]
  {
    if part <= s {
      assert part <= s[0..];
    }
    if s != "" {
      ContainsExactly(s[1..], part);
      if i :| 0 <= i <= |s[1..]| && part <= s[1..][i..] {
        assert s[1..][i..] == s[i + 1..];
      }
      if i :| 0 < i <= |s| && part <= s[i..] {
        assert s[1..][i - 1..] == s[i..];
      }
    }
  }

  /** Size in bytes of the UTF-8 form of a text. */
  function ByteSize(s: string): (n: nat)
    ensures |s| <= n <= 4 * |s|
  {
    if s == "" then 0
    else
      var c := s[0] as int;
      ByteSize(s[1..]) + if c < 0x80 then 1 else if c < 0x800 then 2 else if c < 0x10000 then 3 else 4
  }

  /** The UTF-8 form of one character (section 3 of RFC 3629). */
  function Utf8(c: char): seq<Byte> {
    var n := c as int;
    if n < 0x80 then [n]
    else if n < 0x800 then [0xC0 + n / 0x40, 0x80 + n % 0x40]
    else if n < 0x10000 then [0xE0 + n / 0x1000, 0x80 + n / 0x40 % 0x40, 0x80 + n % 0x40]
    else [0xF0 + n / 0x40000, 0x80 + n / 0x1000 % 0x40, 0x80 + n / 0x40 % 0x40, 0x80 + n % 0x40]
  }

  /** The number in a head byte with this offset and the six bits of each byte after it. */
  function Carried(bytes: seq<Byte>, offset: int): int {
    if bytes == [] then 0
    else if |bytes| == 1 then bytes[0] as int - offset
    else 0x40 * Carried(bytes[..|bytes| - 1], offset) + (bytes[|bytes| - 1] as int - 0x80)
  }

  /** The bytes carry the character's number; the head byte tells how many there are. */
  lemma Utf8Carries(c: char)
    ensures var b := Utf8(c);
      && 1 <= |b| <= 4 && (forall i :: 1 <= i < |b| ==> 0x80 <= b[i] < 0xC0)
      && (|b| == 1 ==> b[0] < 0x80 && c as int == Carried(b, 0))
      && (|b| == 2 ==> 0xC0 <= b[0] < 0xE0 && c as int == Carried(b, 0xC0))
      && (|b| == 3 ==> 0xE0 <= b[0] < 0xF0 && c as int == Carried(b, 0xE0))
      && (|b| == 4 ==> 0xF0 <= b[0] < 0xF8 && c as int == Carried(b, 0xF0))
  {
    var n, b := c as int, Utf8(c);
    assert n / 0x1000 == n / 0x40 / 0x40 && n / 0x40000 == n / 0x1000 / 0x40;
    if |b| == 2 {
      assert b == [b[0]] + [b[1]];
      CarriedMore([b[0]], b[1], 0xC0);
    } else if |b| == 3 {
      CarriedThree(b[0], b[1], b[2], 0xE0);
    } else if |b| == 4 {
      CarriedThree(b[0], b[1], b[2], 0xF0);
      assert b == [b[0], b[1], b[2]] + [b[3]];
      CarriedMore([b[0], b[1], b[2]], b[3], 0xF0);
    }
  }

  lemma CarriedThree(x: Byte, y: Byte, z: Byte, offset: int)
    ensures Carried([x, y, z], offset) == 0x40 * (0x40 * (x as int - offset) + (y as int - 0x80)) + (z as int - 0x80)
  {
    CarriedMore([x], y, offset);
    assert [x] + [y] == [x, y];
    CarriedMore([x, y], z, offset);
    assert [x, y] + [z] == [x, y, z];
  }

  lemma CarriedMore(front: seq<Byte>, last: Byte, offset: int)
    requires front != []
    ensures Carried(front + [last], offset) == 0x40 * Carried(front, offset) + (last as int - 0x80)
  {
    assert (front + [last])[..|front|] == front;
  }

  function Utf8Of(s: string): seq<Byte> {
    if s == "" then [] else Utf8(s[0]) + Utf8Of(s[1..])
  }

  lemma {:induction false} ByteSizeExactly(s: string)
    ensures ByteSize(s) == |Utf8Of(s)|
  {
    if s != "" {
      ByteSizeExactly(s[1..]);
    }
  }

  predicate Ascii(s: string) {
    forall i :: 0 <= i < |s| ==> s[i] as int < 0x80
  }

  lemma {:induction false} AsciiSize(s: string)
    requires Ascii(s)
    ensures ByteSize(s) == |s|
  {
    if s != "" {
      AsciiSize(s[1..]);
    }
  }
}
