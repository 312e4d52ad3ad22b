/**
 * The USTAR writer of the import specs, and the reader of the Joplin importer
 * that has to undo it: the header fields, the two loops and the round trip.
 */
module TarArchive {
  import opened Basics
  import opened TarFraming

  const ZERO_DIGIT: Byte := 48

  // ---------------------------------------------------------------- octal ---

  ghost predicate AllOctal(s: seq<Byte>) {
    forall i :: 0 <= i < |s| ==> 48 <= s[i] < 56
  }

  /** `n.toString(8)` in ASCII. */
  function Octal(n: nat): (s: seq<Byte>)
    ensures |s| > 0 && AllOctal(s)
  {
    if n < 8 then [48 + n] else Octal(n / 8) + [48 + n % 8]
  }

  /** Positional value of a run of octal digits. */
  function OctalValue(s: seq<Byte>): (n: nat)
    requires AllOctal(s)
  {
    if s == [] then 0 else 8 * OctalValue(s[..|s| - 1]) + s[|s| - 1] - 48
  }

  function Pow8(k: nat): (p: nat)
    ensures p > 0
  {
    if k == 0 then 1 else 8 * Pow8(k - 1)
  }

  lemma {:induction false} OctalRoundTrip(n: nat)
    ensures OctalValue(Octal(n)) == n
  {
    if n >= 8 {
      OctalRoundTrip(n / 8);
      assert Octal(n)[..|Octal(n)| - 1] == Octal(n / 8);
    }
  }

  /** The number of digits says how large the number is, and back. */
  lemma {:induction false} OctalLength(n: nat, k: nat)
    requires k > 0
    ensures |Octal(n)| <= k <==> n < Pow8(k)
    decreases k
  {
    if k == 1 {
      assert Pow8(1) == 8 * Pow8(0);
      if n >= 8 { assert |Octal(n / 8)| > 0; }
    } else if n >= 8 {
      OctalLength(n / 8, k - 1);
      assert n / 8 < Pow8(k - 1) <==> n < 8 * Pow8(k - 1);
    } else {
      assert Pow8(k) == 8 * Pow8(k - 1);
    }
  }

  lemma {:induction false} LeadingZeros(z: nat, s: seq<Byte>)
    requires AllOctal(s)
    ensures AllOctal(seq(z, _ => ZERO_DIGIT) + s)
    ensures OctalValue(seq(z, _ => ZERO_DIGIT) + s) == OctalValue(s)
    decreases z + |s|
  {
    var p := seq(z, _ => ZERO_DIGIT);
    if s != [] {
      LeadingZeros(z, s[..|s| - 1]);
      assert (p + s)[..|p + s| - 1] == p + s[..|s| - 1];
    } else if z > 0 {
      LeadingZeros(z - 1, s);
      assert (p + s)[..|p + s| - 1] == seq(z - 1, _ => ZERO_DIGIT) + s;
    }
  }

  /** Cutting digits off the end of a positive number loses value. */
  lemma {:induction false} CutDigits(s: seq<Byte>, k: nat)
    requires AllOctal(s) && 0 < k < |s| && s[0] > 48
    ensures OctalValue(s[..k]) < OctalValue(s)
    decreases |s|
  {
    var front := s[..|s| - 1];
    LeadingDigit(front);
    if k < |front| {
      CutDigits(front, k);
      assert front[..k] == s[..k];
    } else {
      assert front == s[..k];
    }
  }

  lemma {:induction false} LeadingDigit(s: seq<Byte>)
    requires AllOctal(s) && |s| > 0 && s[0] > 48
    ensures OctalValue(s) > 0
  {
    if |s| > 1 {
      LeadingDigit(s[..|s| - 1]);
    } else {
      assert s[..|s| - 1] == [];
    }
  }

  lemma {:induction false} OctalLeads(n: nat)
    requires n > 0
    ensures Octal(n)[0] > 48
  {
    if n >= 8 { OctalLeads(n / 8); }
  }

  // --------------------------------------------------------------- writer ---

  /** The size field: octal digits padded with `0` to 11, then NUL. */
  function SizeField(size: nat): (f: seq<Byte>) {
    var digits := Octal(size);
    seq(if |digits| < 11 then 11 - |digits| else 0, _ => ZERO_DIGIT) + digits + [0]
  }

  function HeaderByte(name: seq<Byte>, field: seq<Byte>, i: nat): (b: Byte) {
    if i == 156 then ZERO_DIGIT
    else if 124 <= i < 124 + |field| then field[i - 124]
    else if i < |name| then name[i]
    else 0
  }

  /** What the three writes leave in the header block; the later write wins where two overlap. */
  function Header(e: Entry): (h: Block) {
    var field := SizeField(|e.data|);
    seq(BLOCK, i requires 0 <= i < BLOCK => HeaderByte(e.name, field, i))
  }

  /** `buffer.write(bytes, at)`: writes what fits. */
  method WriteAt(buffer: array<Byte>, bytes: seq<Byte>, at: nat)
    requires at <= buffer.Length
    modifies buffer
    ensures forall i :: 0 <= i < buffer.Length ==>
      buffer[i] == if at <= i < at + |bytes| then bytes[i - at] else old(buffer[i])
  {
    var i := 0;
    while i < |bytes| && at + i < buffer.Length
      invariant 0 <= i <= |bytes| && at + i <= buffer.Length
      invariant forall j :: 0 <= j < buffer.Length ==>
        buffer[j] == if at <= j < at + i then bytes[j - at] else old(buffer[j])
    {
      buffer[at + i] := bytes[i];
      i := i + 1;
    }
  }

  /** The header buffer of one member. */
  method WriteHeader(e: Entry) returns (header: array<Byte>)
    ensures fresh(header) && header[..] == Header(e)
  {
    header := new Byte[BLOCK](_ => 0);
    WriteAt(header, e.name, 0);
    WriteAt(header, SizeField(|e.data|), 124);
    WriteAt(header, [ZERO_DIGIT], 156);
  }

  /** The three parts of a member, pushed, stand for the member. */
  lemma PushMember(parts: seq<seq<Byte>>, header: seq<Byte>, e: Entry, entries: seq<Entry>, i: nat)
    requires i < |entries| && e == entries[i] && header == Header(e)
    ensures Concat(parts) + Archive(Header, entries[i..])
         == Concat(parts + [header, e.data, Zeros(Padding(|e.data|))]) + Archive(Header, entries[i + 1..])
  {
    var padding, rest := Zeros(Padding(|e.data|)), Archive(Header, entries[i + 1..]);
    ConcatAppend(parts, [header, e.data, padding]);
    ConcatOfThree(header, e.data, padding);
    assert entries[i..][1..] == entries[i + 1..];
    Assoc(Concat(parts), Member(Header, e), rest);
  }

  lemma ConcatOfThree<T>(a: seq<T>, b: seq<T>, c: seq<T>)
    ensures Concat([a, b, c]) == a + b + c
  {
    assert [a, b, c][1..] == [b, c] && [b, c][1..] == [c];
    assert Concat([c]) == c + Concat([c][1..]) == c;
  }

  lemma ConcatLast<T>(parts: seq<seq<T>>, last: seq<T>)
    ensures Concat(parts + [last]) == Concat(parts) + last
  {
    ConcatAppend(parts, [last]);
    assert Concat([last]) == last + Concat([last][1..]) == last;
  }

  /** `tar(entries)`. */
  method Tar(entries: seq<Entry>) returns (archive: seq<Byte>)
    ensures archive == Archive(Header, entries)
  {
    var parts: seq<seq<Byte>> := [];
    ghost var whole := Archive(Header, entries);
    assert entries[0..] == entries && [] + whole == whole;
    var i := 0;
    while i < |entries|
      invariant 0 <= i <= |entries|
      invariant whole == Concat(parts) + Archive(Header, entries[i..])
    {
      var e := entries[i];
      var header := WriteHeader(e);
      PushMember(parts, header[..], e, entries, i);
      parts := parts + [header[..], e.data, Zeros(Padding(|e.data|))];
      i := i + 1;
    }
    ConcatLast(parts, Zeros(2 * BLOCK));
    archive := Concat(parts + [Zeros(2 * BLOCK)]);
  }

  // --------------------------------------------------------------- reader ---

  /** The NUL-terminated field at `from`, at most `len` bytes. */
  function StringField(block: seq<Byte>, from: nat, len: nat): (s: seq<Byte>)
    requires from + len <= |block|
    ensures |s| <= len
    decreases len
  {
    if len == 0 || block[from] == 0 then []
    else [block[from]] + StringField(block, from + 1, len - 1)
  }

  lemma {:induction false} FieldHasNoNul(block: seq<Byte>, from: nat, len: nat)
    requires from + len <= |block|
    ensures 0 !in StringField(block, from, len)
    decreases len
  {
    if len > 0 && block[from] != 0 { FieldHasNoNul(block, from + 1, len - 1); }
  }

  /** The field's bytes without NULs and spaces. */
  function Stripped(field: seq<Byte>): (s: seq<Byte>) {
    if field == [] then []
    else (if field[0] == 0 || field[0] == 0x20 then [] else [field[0]]) + Stripped(field[1..])
  }

  /** What `parseInt` skips in front of a number, of the characters a byte can be. */
  predicate IsJsSpace(c: Byte) { 9 <= c <= 13 || c == 0x20 || c == 0xA0 }

  function OctalPrefix(s: seq<Byte>): (p: seq<Byte>)
    ensures AllOctal(p)
  {
    if s != [] && 48 <= s[0] < 56 then [s[0]] + OctalPrefix(s[1..]) else []
  }

  /** `parseInt(s, 8)`, 0 where that is NaN. */
  function ParseOctal(s: seq<Byte>): (n: int) {
    if s == [] then 0
    else if IsJsSpace(s[0]) then ParseOctal(s[1..])
    else if s[0] == 45 then 0 - OctalValue(OctalPrefix(s[1..]))
    else if s[0] == 43 then OctalValue(OctalPrefix(s[1..]))
    else OctalValue(OctalPrefix(s))
  }

  function FullName(header: Block): (name: seq<Byte>) {
    var name := StringField(header, 0, 100);
    var prefix := StringField(header, 345, 155);
    if |prefix| > 0 then prefix + [47] + name else name
  }

  function SizeOf(header: Block): (size: int) {
    ParseOctal(Stripped(header[124..136]))
  }

  predicate IsRegular(flag: Byte) { flag == 0 || flag == 0x30 || flag == 0x37 }

  /** What one header block tells the reader; a zero block or a negative size ends the scan. */
  function HeadOf(header: Block): (h: Head) {
    if header == Zeros(BLOCK) || SizeOf(header) < 0 then End
    else Head(FullName(header), SizeOf(header), IsRegular(header[156]))
  }

  /** The scan of one header block for a byte other than NUL. */
  method ScanZero(header: Block) returns (allZero: bool)
    ensures allZero <==> header == Zeros(BLOCK)
  {
    var i := 0;
    while i < BLOCK
      invariant 0 <= i <= BLOCK
      invariant forall j :: 0 <= j < i ==> header[j] == 0
    {
      if header[i] != 0 {
        assert Zeros(BLOCK)[i] == 0;
        return false;
      }
      i := i + 1;
    }
    return true;
  }

  /** The field is the bytes up to the first NUL. */
  lemma {:induction false} FieldIs(block: seq<Byte>, from: nat, len: nat, size: nat)
    requires from + len <= |block| && size == |StringField(block, from, len)|
    ensures StringField(block, from, len) == block[from..from + size]
    ensures forall i :: from <= i < from + size ==> block[i] != 0
    ensures size < len ==> block[from + size] == 0
    decreases len
  {
    if len > 0 && block[from] != 0 {
      FieldIs(block, from + 1, len - 1, size - 1);
      assert block[from..from + size] == [block[from]] + block[from + 1..from + size];
    }
  }

  /** `readStringField`. */
  method ReadStringField(block: Block, offset: nat, length: nat) returns (s: seq<Byte>)
    requires offset + length <= BLOCK
    ensures s == StringField(block, offset, length)
  {
    var end, limit := offset, offset + length;
    ghost var size := |StringField(block, offset, length)|;
    FieldIs(block, offset, length, size);
    while end < limit && block[end] != 0
      invariant offset <= end <= offset + size
    {
      end := end + 1;
    }
    s := block[offset..end];
  }

  /** `readOctalField`. */
  method ReadOctalField(block: Block, offset: nat, length: nat) returns (value: int)
    requires offset + length <= BLOCK
    ensures value == ParseOctal(Stripped(block[offset..offset + length]))
  {
    var str: seq<Byte> := [];
    ghost var field := block[offset..offset + length];
    assert field[0..] == field;
    for i := offset to offset + length
      invariant Stripped(field) == str + Stripped(field[i - offset..])
    {
      var c := block[i];
      assert field[i - offset..][1..] == field[i + 1 - offset..];
      if c != 0 && c != 0x20 {
        Assoc(str, [c], Stripped(field[i + 1 - offset..]));
        str := str + [c];
      }
    }
    assert str + [] == str;
    value := ParseOctal(str);
  }

  /** `parse` makes of every block what the reader does; a name that keeps the fields out of the loop's proof. */
  ghost predicate IsReader(parse: Block -> Head) {
    forall header: Block {:trigger HeadOf(header)} :: parse(header) == HeadOf(header)
  }

  /** One header block, field by field. */
  method ReadHeader(header: Block, ghost parse: Block -> Head) returns (h: Head)
    requires IsReader(parse)
    ensures h == parse(header)
  {
    assert parse(header) == HeadOf(header);
    var allZero := ScanZero(header);
    if allZero { return End; }
    var name := ReadStringField(header, 0, 100);
    var prefix := ReadStringField(header, 345, 155);
    var fullName := if |prefix| > 0 then prefix + [47] + name else name;
    var size := ReadOctalField(header, 124, 12);
    if size < 0 { return End; }
    h := Head(fullName, size, IsRegular(header[156]));
  }

  /** `readTar(archive)`: ends on every byte sequence, and finds what `ReadFrom` says. */
  method ReadTar(archive: seq<Byte>, ghost parse: Block -> Head) returns (entries: seq<Entry>)
    requires IsReader(parse)
    ensures entries == ReadFrom(parse, archive, 0)
  {
    entries := [];
    ghost var all := ReadFrom(parse, archive, 0);
    var offset: nat := 0;
    while offset + BLOCK <= |archive|
      invariant all == entries + ReadFrom(parse, archive, offset)
      decreases |archive| - offset
    {
      var header: Block := archive[offset..offset + BLOCK];
      var h := ReadHeader(header, parse);
      if h.End? {
        NoMoreMembers(parse, archive, offset, header, entries);
        return;
      }
      var dataStart := offset + BLOCK;
      var dataEnd := dataStart + h.size;
      ghost var before := entries;
      assert before + [] == before;
      if h.regular && dataEnd <= |archive| {
        entries := entries + [Entry(h.name, archive[dataStart..dataEnd])];
      }
      var next := dataStart + RoundUp(h.size);
      OneMoreMember(parse, archive, offset, header, h, before, entries, next);
      offset := next;
    }
    assert entries + [] == entries;
  }

  // ----------------------------------------------------------- properties ---

  /** What the writer and the reader together carry without loss. */
  predicate Fits(e: Entry) {
    |e.name| <= 100 && 0 !in e.name && |e.data| < 68_719_476_736
  }

  lemma TwelveDigits()
    ensures Pow8(12) == 68_719_476_736
  {
    assert Pow8(4) == 8 * Pow8(3) == 8 * 8 * Pow8(2) == 4096;
    assert Pow8(8) == 8 * Pow8(7) == 8 * 8 * Pow8(6) == 8 * 8 * 8 * Pow8(5) == 4096 * 4096;
    assert Pow8(12) == 8 * Pow8(11) == 8 * 8 * Pow8(10) == 8 * 8 * 8 * Pow8(9);
  }

  lemma {:induction false} StrippedDigits(s: seq<Byte>)
    requires AllOctal(s)
    ensures Stripped(s) == s && OctalPrefix(s) == s
  {
    if s != [] {
      StrippedDigits(s[1..]);
      assert s == [s[0]] + s[1..];
    }
  }

  lemma ParseDigits(s: seq<Byte>)
    requires AllOctal(s)
    ensures ParseOctal(Stripped(s)) == OctalValue(s)
    ensures ParseOctal(Stripped(s + [0])) == OctalValue(s)
  {
    StrippedDigits(s);
    StrippedSnoc(s, 0);
    assert s + [] == s;
  }

  /** The twelve bytes of the size field: the padded digits and a NUL, or the first twelve digits. */
  lemma SizeBytes(e: Entry) returns (digits: seq<Byte>)
    ensures AllOctal(digits) && |digits| >= 11 && |digits| >= |Octal(|e.data|)|
    ensures digits == seq(|digits| - |Octal(|e.data|)|, _ => ZERO_DIGIT) + Octal(|e.data|)
    ensures |digits| > 11 ==> digits == Octal(|e.data|)
    ensures Header(e)[124..136] == if |digits| == 11 then digits + [0] else digits[..12]
  {
    var octal, field := Octal(|e.data|), SizeField(|e.data|);
    digits := field[..|field| - 1];
    var read := Header(e)[124..136];
    assert forall i :: 0 <= i < 12 ==> read[i] == field[i];
    assert field == digits + [0];
  }

  /** Read back, the size field gives the size when it has at most 12 digits and less when it has more. */
  lemma SizeReadBack(e: Entry)
    ensures |e.data| < Pow8(12) ==> SizeOf(Header(e)) == |e.data|
    ensures |e.data| >= Pow8(12) ==> 0 <= SizeOf(Header(e)) < |e.data|
  {
    var size := |e.data|;
    OctalLength(size, 12);
    OctalRoundTrip(size);
    var digits := SizeBytes(e);
    LeadingZeros(|digits| - |Octal(size)|, Octal(size));
    FieldValue(digits, Header(e)[124..136]);
    if |digits| > 12 {
      OctalLeads(size);
      CutDigits(digits, 12);
    }
  }

  lemma FieldValue(digits: seq<Byte>, read: seq<Byte>)
    requires AllOctal(digits) && |digits| >= 11
    requires read == if |digits| == 11 then digits + [0] else digits[..12]
    ensures ParseOctal(Stripped(read)) == OctalValue(if |digits| <= 12 then digits else digits[..12])
  {
    if |digits| == 11 {
      ParseDigits(digits);
    } else {
      ParseDigits(digits[..12]);
      assert |digits| == 12 ==> digits[..12] == digits;
    }
  }

  lemma {:induction false} FieldEqual(block: seq<Byte>, name: seq<Byte>, from: nat, len: nat)
    requires |name| <= len && from + len <= |block| && 0 !in name
    requires forall i :: 0 <= i < |name| ==> block[from + i] == name[i]
    requires |name| < len ==> block[from + |name|] == 0
    ensures StringField(block, from, len) == name
    decreases |name|
  {
    if name != [] {
      assert block[from + 0] == name[0] && name[0] in name;
      forall i | 0 <= i < |name[1..]|
        ensures block[from + 1 + i] == name[1..][i]
      {
        assert block[from + (i + 1)] == name[i + 1];
      }
      FieldEqual(block, name[1..], from + 1, len - 1);
    }
  }

  /** A name that ends before the prefix field leaves that empty. */
  lemma NoPrefix(e: Entry)
    requires |e.data| < Pow8(12) && |e.name| <= 345
    ensures StringField(Header(e), 345, 155) == []
  {
    OctalLength(|e.data|, 12);
    assert Header(e)[345] == HeaderByte(e.name, SizeField(|e.data|), 345) == 0;
  }

  lemma NameField(e: Entry)
    requires |e.name| <= 100 && 0 !in e.name
    ensures StringField(Header(e), 0, 100) == e.name
  {
    var header, field := Header(e), SizeField(|e.data|);
    forall i | 0 <= i < 100
      ensures header[0 + i] == if i < |e.name| then e.name[i] else 0
    {
      assert header[i] == HeaderByte(e.name, field, i);
    }
    FieldEqual(header, e.name, 0, 100);
  }

  lemma NameHasNoNul(header: Block)
    ensures 0 !in FullName(header)
  {
    FieldHasNoNul(header, 0, 100);
    FieldHasNoNul(header, 345, 155);
  }

  /** A name read back is short: the prefix field, a slash and the name field are the most it can be. */
  lemma NameLength(header: Block)
    ensures |FullName(header)| <= 256
    ensures StringField(header, 345, 155) == [] ==> |FullName(header)| <= 100
  {
  }

  /** The name comes back exactly when it has at most 100 bytes and no NUL. */
  lemma NameReadBack(e: Entry)
    requires |e.data| < Pow8(12)
    ensures FullName(Header(e)) == e.name <==> |e.name| <= 100 && 0 !in e.name
  {
    NameLength(Header(e));
    NameHasNoNul(Header(e));
    if |e.name| <= 345 { NoPrefix(e); }
    if |e.name| <= 100 && 0 !in e.name { NameField(e); }
  }

  /** The header reads back exactly when the entry fits; otherwise it is read as something else. */
  lemma HeaderReadBack(e: Entry)
    ensures Fits(e) ==> ReadsBack(HeadOf, Header, e)
    ensures !Fits(e) ==> ReadsAltered(HeadOf, Header, e)
  {
    TwelveDigits();
    SizeReadBack(e);
    if |e.data| < Pow8(12) {
      NameReadBack(e);
    }
    var header := Header(e);
    assert header[156] == HeaderByte(e.name, SizeField(|e.data|), 156) == ZERO_DIGIT;
    assert Zeros(BLOCK)[156] == 0;
  }

  // --------------------------------------------------------------- format ---

  /**
   * Where the ustar fields stand in a header the writer makes: the name at 0, at
   * 124 eleven octal digits and a NUL, the type flag of a regular file at 156,
   * and NULs everywhere else.
   */
  lemma HeaderLayout(e: Entry)
    requires |e.name| <= 100 && |Octal(|e.data|)| <= 11
    ensures var h := Header(e);
            && h[..|e.name|] == e.name
            && AllOctal(h[124..135]) && OctalValue(h[124..135]) == |e.data|
            && h[156] == 0x30
            && forall i :: 0 <= i < 512 && !(i < |e.name| || 124 <= i < 135 || i == 156) ==> h[i] == 0
  {
    var digits := SizeBytes(e);
    var octal := Octal(|e.data|);
    LeadingZeros(|digits| - |octal|, octal);
    OctalRoundTrip(|e.data|);
    DigitsStand(Header(e), digits);
    BytesOf(e, SizeField(|e.data|));
  }

  lemma DigitsStand(h: Block, digits: seq<Byte>)
    requires |digits| == 11 && h[124..136] == digits + [0]
    ensures h[124..135] == digits && h[135] == 0
  {
    assert h[124..135] == h[124..136][..11] && h[135] == h[124..136][11];
  }

  lemma BytesOf(e: Entry, field: seq<Byte>)
    requires |e.name| <= 100 && field == SizeField(|e.data|) && |field| == 12
    ensures Header(e)[..|e.name|] == e.name && Header(e)[156] == 0x30
    ensures forall i :: 0 <= i < 512 && !(i < |e.name| || 124 <= i < 136 || i == 156) ==> Header(e)[i] == 0
  {
    assert forall i :: 0 <= i < 512 ==> Header(e)[i] == HeaderByte(e.name, field, i);
  }

  /** A name of any length runs on through the header, but for the bytes written later: the size field, however long, and the flag. */
  lemma LongNamesRunOn(e: Entry, i: nat)
    requires i < 512 && i != 156
    requires var digits := |Octal(|e.data|)|; !(124 <= i < 124 + (if digits < 11 then 11 else digits) + 1)
    ensures Header(e)[i] == if i < |e.name| then e.name[i] else 0
  {
  }

  /** The NUL-terminated field of at most `len` bytes at `from` holds `s`. */
  ghost predicate FieldHolds(block: seq<Byte>, from: nat, len: nat, s: seq<Byte>)
    requires from + len <= |block|
  {
    |s| <= len && 0 !in s && block[from..from + |s|] == s && (|s| < len ==> block[from + |s|] == 0)
  }

  /**
   * What the reader takes a header for, by the ustar fields: NULs only or a
   * negative size are the end; otherwise the name at 0, behind the prefix at 345
   * and a slash if there is one, and a regular file for the flags NUL, `0`, `7`.
   */
  lemma HeadLayout(h: Block, name: seq<Byte>, prefix: seq<Byte>)
    requires FieldHolds(h, 0, 100, name) && FieldHolds(h, 345, 155, prefix)
    ensures HeadOf(h).End? <==> (forall i :: 0 <= i < 512 ==> h[i] == 0) || ParseOctal(Stripped(h[124..136])) < 0
    ensures HeadOf(h).Head? ==>
      && HeadOf(h).name == (if prefix == [] then name else prefix + [0x2F] + name)
      && HeadOf(h).size == ParseOctal(Stripped(h[124..136]))
      && (HeadOf(h).regular <==> h[156] in {0x00, 0x30, 0x37})
  {
    FieldEqual(h, name, 0, 100);
    FieldEqual(h, prefix, 345, 155);
    assert h == Zeros(BLOCK) <==> forall i :: 0 <= i < 512 ==> h[i] == 0;
  }

  /** NULs and spaces are dropped from a number's field, wherever they are. */
  lemma {:induction false} StrippedSnoc(field: seq<Byte>, b: Byte)
    ensures Stripped(field + [b]) == Stripped(field) + if b == 0x00 || b == 0x20 then [] else [b]
  {
    var last := if b == 0x00 || b == 0x20 then [] else [b];
    if field == [] {
      assert field + [b] == [b] && [b][1..] == [];
      assert Stripped([b]) == last + Stripped([b][1..]);
    } else {
      assert (field + [b])[0] == field[0] && (field + [b])[1..] == field[1..] + [b];
      StrippedSnoc(field[1..], b);
      Assoc(if field[0] == 0 || field[0] == 0x20 then [] else [field[0]], Stripped(field[1..]), last);
    }
  }

  /** `parseInt`: the octal digits behind white space and a sign count, up to the first other character; without digits it is 0. */
  lemma ParseOctalIs(spaces: seq<Byte>, sign: Option<Byte>, digits: seq<Byte>, rest: seq<Byte>)
    requires forall b <- spaces :: b in {9, 10, 11, 12, 13, 0x20, 0xA0}
    requires sign.Some? ==> sign.value in {43, 45}
    requires AllOctal(digits) && (rest == [] || !(48 <= rest[0] < 56))
    requires digits == [] && sign.None? && rest != [] ==> rest[0] !in {9, 10, 11, 12, 13, 0x20, 0xA0, 43, 45}
    ensures var n := OctalValue(digits);
            ParseOctal(spaces + ((if sign.Some? then [sign.value] else []) + (digits + rest)))
            == if sign == Some(45) then 0 - n else n
  {
    var number := (if sign.Some? then [sign.value] else []) + (digits + rest);
    SpacesSkipped(spaces, number);
    PrefixIs(digits, rest);
    if sign.Some? {
      assert number[0] == sign.value && number[1..] == digits + rest;
    } else {
      assert number == digits + rest;
      assert digits != [] ==> number[0] == digits[0];
    }
  }

  lemma {:induction false} SpacesSkipped(spaces: seq<Byte>, number: seq<Byte>)
    requires forall b <- spaces :: b in {9, 10, 11, 12, 13, 0x20, 0xA0}
    ensures ParseOctal(spaces + number) == ParseOctal(number)
  {
    if spaces == [] {
      assert spaces + number == number;
    } else {
      assert spaces[0] in spaces && forall b <- spaces[1..] :: b in spaces;
      assert (spaces + number)[0] == spaces[0] && (spaces + number)[1..] == spaces[1..] + number;
      SpacesSkipped(spaces[1..], number);
    }
  }

  lemma {:induction false} PrefixIs(digits: seq<Byte>, rest: seq<Byte>)
    requires AllOctal(digits) && (rest == [] || !(48 <= rest[0] < 56))
    ensures OctalPrefix(digits + rest) == digits
  {
    if digits == [] {
      assert digits + rest == rest;
    } else {
      assert (digits + rest)[0] == digits[0] && (digits + rest)[1..] == digits[1..] + rest;
      PrefixIs(digits[1..], rest);
    }
  }

  /**
   * Round trip, with its exact condition: what `tar` wrote is read back as it
   * was exactly when every name has at most 100 bytes and no NUL and every size
   * is below 8^12. (The writer pads to 11 digits; the reader takes 12.)
   */
  lemma RoundTrip(entries: seq<Entry>)
    ensures ReadFrom(HeadOf, Archive(Header, entries), 0) == entries <==> forall e <- entries :: Fits(e)
  {
    var a := Archive(Header, entries);
    forall e <- entries
      ensures Fits(e) ==> ReadsBack(HeadOf, Header, e)
      ensures !Fits(e) ==> ReadsAltered(HeadOf, Header, e)
    {
      HeaderReadBack(e);
    }
    assert [] + a == a && [] + (a + []) == a;
    if forall e <- entries :: Fits(e) {
      ReadUndoesWrite(HeadOf, Header, [], entries, []);
    } else {
      AlteredIsLost(HeadOf, Header, [], entries);
    }
  }

  /** The two methods together: what is written is read back exactly when every entry fits. */
  method WriteAndRead(entries: seq<Entry>) returns (read: seq<Entry>)
    ensures read == entries <==> forall e <- entries :: Fits(e)
  {
    var archive := Tar(entries);
    read := ReadTar(archive, HeadOf);
    RoundTrip(entries);
  }

  /** Bytes after the archive's zero blocks do not disturb it, and a cut loses members only from the end. */
  lemma PartialArchive(entries: seq<Entry>, junk: seq<Byte>, n: nat)
    requires forall e <- entries :: Fits(e)
    requires n <= |Archive(Header, entries) + junk|
    ensures ReadFrom(HeadOf, Archive(Header, entries) + junk, 0) == entries
    ensures ReadFrom(HeadOf, (Archive(Header, entries) + junk)[..n], 0) <= entries
  {
    var a := Archive(Header, entries) + junk;
    forall e <- entries
      ensures ReadsBack(HeadOf, Header, e)
    {
      HeaderReadBack(e);
    }
    assert [] + a == a;
    ReadUndoesWrite(HeadOf, Header, [], entries, junk);
    TruncationKeepsAPrefix(HeadOf, a, n, 0);
  }
}
