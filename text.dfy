/** The UTF-8 text cursor of the newer engine (`Text` in src/regex/input.rs).
    A text is a sequence of Unicode scalar values; a cursor is a BYTE offset into
    its UTF-8 encoding, so the byte offset of the k-th character is the sum of the
    widths of the k characters before it. */
module Utf8Text {
  import opened Wrappers

  /** `char::len_utf8`: number of bytes of the UTF-8 encoding of c. */
  function Width(c: char): (w: nat)
    ensures 1 <= w <= 4
    ensures w == 1 <==> c as int < 0x80
  {
    if c as int < 0x80 then 1
    else if c as int < 0x800 then 2
    else if c as int < 0x1_0000 then 3
    else 4
  }

  /** `str::len`: number of bytes of the UTF-8 encoding of s. */
  function ByteLen(s: seq<char>): (n: nat)
    ensures |s| <= n <= 4 * |s|
  {
    if s == [] then 0 else Width(s[0]) + ByteLen(s[1..])
  }

  lemma {:induction false} ByteLenAppend(a: seq<char>, b: seq<char>)
    ensures ByteLen(a + b) == ByteLen(a) + ByteLen(b)
  {
    if a == [] {
      assert a + b == b;
    } else {
      assert (a + b)[1..] == a[1..] + b;
      ByteLenAppend(a[1..], b);
    }
  }

  /** An ASCII text has as many bytes as characters. */
  lemma {:induction false} AsciiByteLen(s: seq<char>)
    requires forall i :: 0 <= i < |s| ==> s[i] as int < 0x80
    ensures ByteLen(s) == |s|
  {
    if s != [] {
      AsciiByteLen(s[1..]);
    }
  }

  /** Byte offsets of character positions strictly increase. */
  lemma PrefixByteLenStrict(s: seq<char>, j: nat, k: nat)
    requires j < k <= |s|
    ensures ByteLen(s[..j]) < ByteLen(s[..k])
  {
    assert s[..k] == s[..j] + s[j..k];
    ByteLenAppend(s[..j], s[j..k]);
  }

  lemma PrefixByteLenMono(s: seq<char>, j: nat, k: nat)
    requires j <= k <= |s|
    ensures ByteLen(s[..j]) <= ByteLen(s[..k])
  {
    if j < k {
      PrefixByteLenStrict(s, j, k);
    }
  }

  /** Byte offsets determine the order of character positions. */
  lemma PrefixOrder(s: seq<char>, j: nat, k: nat)
    requires j <= |s| && k <= |s|
    requires ByteLen(s[..j]) <= ByteLen(s[..k])
    ensures j <= k
  {
    if k < j {
      PrefixByteLenStrict(s, k, j);
    }
  }

  lemma ByteLenStep(s: seq<char>, k: nat)
    requires k < |s|
    ensures ByteLen(s[..k + 1]) == ByteLen(s[..k]) + Width(s[k])
  {
    assert s[..k + 1] == s[..k] + [s[k]];
    ByteLenAppend(s[..k], [s[k]]);
  }

  /** The character index whose byte offset is `offset`, if `offset` is a character
      boundary of s (the end of s included). */
  function Locate(s: seq<char>, offset: nat): (r: Option<nat>)
    ensures r.Some? ==> r.value <= |s| && ByteLen(s[..r.value]) == offset
    decreases |s|
  {
    if offset == 0 then Some(0)
    else if s == [] || offset < Width(s[0]) then None
    else
      match Locate(s[1..], offset - Width(s[0]))
      case None => None
      case Some(k) =>
        assert s[..k + 1] == [s[0]] + s[1..][..k];
        ByteLenAppend([s[0]], s[1..][..k]);
        Some(k + 1)
  }

  /** Every character position is found again from its byte offset. */
  lemma {:induction false} LocatePrefix(s: seq<char>, k: nat)
    requires k <= |s|
    ensures Locate(s, ByteLen(s[..k])) == Some(k)
  {
    if k > 0 {
      var offset := ByteLen(s[..k]);
      assert s[..k][1..] == s[1..][..k - 1];
      assert offset == Width(s[0]) + ByteLen(s[1..][..k - 1]);
      LocatePrefix(s[1..], k - 1);
    }
  }

  /** Locate is exact: it finds k precisely when k's byte offset is `offset`. */
  lemma LocateIff(s: seq<char>, offset: nat, k: nat)
    requires k <= |s|
    ensures Locate(s, offset) == Some(k) <==> ByteLen(s[..k]) == offset
  {
    if ByteLen(s[..k]) == offset {
      LocatePrefix(s, k);
    }
  }

  /** An offset that is no character boundary is not located. */
  lemma LocateNone(s: seq<char>, offset: nat)
    ensures Locate(s, offset).None? <==> forall k :: 0 <= k <= |s| ==> ByteLen(s[..k]) != offset
  {
    if Locate(s, offset).None? {
      forall k | 0 <= k <= |s| ensures ByteLen(s[..k]) != offset {
        LocateIff(s, offset, k);
      }
    }
  }

  /** `Text::char_at`: the character starting at byte offset `offset`; None at
      or past the end and inside a multi-byte character. */
  function CharAt(text: seq<char>, offset: nat): (r: Option<char>)
    ensures r.Some? ==> offset < ByteLen(text)
  {
    match Locate(text, offset)
    case None => None
    case Some(k) =>
      if k < |text| then
        PrefixByteLenStrict(text, k, |text|);
        assert text[..|text|] == text;
        Some(text[k])
      else None
  }

  /** char_at finds the k-th character at its own byte offset. */
  lemma CharAtPosition(text: seq<char>, k: nat)
    requires k < |text|
    ensures CharAt(text, ByteLen(text[..k])) == Some(text[k])
  {
    LocatePrefix(text, k);
  }

  /** char_at yields a character exactly at the byte offsets where one starts. */
  lemma CharAtIff(text: seq<char>, offset: nat)
    ensures CharAt(text, offset).Some? <==> exists k :: 0 <= k < |text| && ByteLen(text[..k]) == offset
    ensures forall k :: 0 <= k < |text| && ByteLen(text[..k]) == offset ==> CharAt(text, offset) == Some(text[k])
  {
    forall k | 0 <= k < |text| && ByteLen(text[..k]) == offset
      ensures CharAt(text, offset) == Some(text[k])
    {
      CharAtPosition(text, k);
    }
  }

  /** char_at is None from the end of the text on. */
  lemma CharAtPastEnd(text: seq<char>, offset: nat)
    requires offset >= ByteLen(text)
    ensures CharAt(text, offset).None?
  {
  }

  /** `Text::is_end`: no suffix starts at `offset`, or the suffix is empty. */
  function IsEnd(text: seq<char>, offset: nat): (b: bool)
    ensures b <==> CharAt(text, offset).None?
  {
    match Locate(text, offset)
    case None => true
    case Some(k) => k == |text|
  }

  /** `Text::next_cursor_unsafe`: the offset just after the character at `offset`.
      Rust unwraps twice, so a character must start there. */
  function NextCursor(text: seq<char>, offset: nat): (next: nat)
    requires CharAt(text, offset).Some?
    ensures next == offset + Width(CharAt(text, offset).value)
    ensures offset < next <= ByteLen(text)
    ensures Locate(text, next) == Some(Locate(text, offset).value + 1)
  {
    var k := Locate(text, offset).value;
    ByteLenStep(text, k);
    LocatePrefix(text, k + 1);
    PrefixByteLenMono(text, k + 1, |text|);
    assert text[..|text|] == text;
    offset + Width(text[k])
  }

  /** `Text::matchwith_at`: the character at `offset` is ch. */
  function MatchWithAt(text: seq<char>, offset: nat, ch: char): (b: bool)
    ensures b <==> CharAt(text, offset) == Some(ch)
  {
    match CharAt(text, offset)
    case None => false
    case Some(c) => c == ch
  }

  /** In ASCII text every offset up to the length is a boundary: byte k is the k-th
      character. */
  lemma LocateAscii(text: seq<char>, k: nat)
    requires forall i :: 0 <= i < |text| ==> text[i] as int < 0x80
    requires k <= |text|
    ensures Locate(text, k) == Some(k)
  {
    AsciiByteLen(text[..k]);
    LocatePrefix(text, k);
  }

  /** `str::get(start..end)`: the characters between two byte offsets, when both are
      character boundaries and start <= end <= len; None otherwise. */
  function SliceOpt(text: seq<char>, start: nat, end: nat): (r: Option<seq<char>>)
    ensures r.Some? <==> start <= end && Locate(text, start).Some? && Locate(text, end).Some?
    ensures r.Some? ==>
              Locate(text, start).value <= Locate(text, end).value
              && r.value == text[Locate(text, start).value..Locate(text, end).value]
              && ByteLen(r.value) == end - start
  {
    if start <= end && Locate(text, start).Some? && Locate(text, end).Some? then
      var ks, ke := Locate(text, start).value, Locate(text, end).value;
      PrefixOrder(text, ks, ke);
      assert text[..ke] == text[..ks] + text[ks..ke];
      ByteLenAppend(text[..ks], text[ks..ke]);
      Some(text[ks..ke])
    else None
  }

  /** `Text::slice`: the characters between two byte offsets, or the empty string
      when `get` refuses the range. */
  function Slice(text: seq<char>, start: nat, end: nat): (r: seq<char>)
    ensures SliceOpt(text, start, end).Some? ==>
              r == text[Locate(text, start).value..Locate(text, end).value] && ByteLen(r) == end - start
    ensures !(start <= end && Locate(text, start).Some? && Locate(text, end).Some?) ==> r == []
  {
    match SliceOpt(text, start, end)
    case None => []
    case Some(piece) => piece
  }
}
