/**
What the record scan does to JSON: of an array, or an object, the records are cut off one by one,
each with the comma before it, however its strings and brackets look inside.
*/
module JsonRecords {
  import opened Bytes
  import opened Structure

  // ---- JSON texts ----------------------------------------------------------------------------------

  /** A character of a string: itself, or any byte behind a backslash. */
  datatype Char = Char(c: byte) | Escaped(c: byte)

  datatype Json =
    | Literal(text: seq<byte>)
    | Text(chars: seq<Char>)
    | Array(items: Items)
    | Object(members: Members)
    | Spaced(before: seq<byte>, value: Json, after: seq<byte>)

  datatype Items = NoItem | Item(value: Json, more: Items)

  datatype Members = NoMember | Member(field: Field, more: Members)

  /** A named value, with white space before and behind the name. */
  datatype Field = Field(before: seq<byte>, key: seq<Char>, after: seq<byte>, value: Json)

  /** Bytes of numbers, names and white space: no quotes, commas or brackets. */
  predicate Plain(text: seq<byte>) {
    forall i :: 0 <= i < |text| ==> text[i] !in Ascii("\",[]{}")
  }

  predicate GoodChars(chars: seq<Char>) {
    forall i :: 0 <= i < |chars| && chars[i].Char? ==> chars[i].c !in Ascii("\"\\")
  }

  predicate GoodJson(v: Json) {
    match v
    case Literal(text) => Plain(text)
    case Text(chars) => GoodChars(chars)
    case Array(items) => GoodItems(items)
    case Object(members) => GoodMembers(members)
    case Spaced(before, value, after) => Plain(before) && Plain(after) && GoodJson(value)
  }

  predicate GoodItems(items: Items) {
    match items
    case NoItem => true
    case Item(v, more) => GoodJson(v) && GoodItems(more)
  }

  predicate GoodMembers(members: Members) {
    match members
    case NoMember => true
    case Member(field, more) => GoodField(field) && GoodMembers(more)
  }

  predicate GoodField(f: Field) {
    Plain(f.before) && GoodChars(f.key) && Plain(f.after) && GoodJson(f.value)
  }

  // ---- Their bytes ---------------------------------------------------------------------------------

  function CharBytes(chars: seq<Char>): seq<byte> {
    if chars == [] then []
    else
      match chars[0]
      case Char(c) => [c] + CharBytes(chars[1..])
      case Escaped(c) => Ascii("\\") + [c] + CharBytes(chars[1..])
  }

  function Quoted(chars: seq<Char>): seq<byte> {
    Ascii("\"") + CharBytes(chars) + Ascii("\"")
  }

  function JsonBytes(v: Json): seq<byte> {
    match v
    case Literal(text) => text
    case Text(chars) => Quoted(chars)
    case Array(items) => Ascii("[") + ItemBytes(items) + Ascii("]")
    case Object(members) => Ascii("{") + MemberBytes(members) + Ascii("}")
    case Spaced(before, value, after) => before + JsonBytes(value) + after
  }

  function ItemBytes(items: Items): seq<byte> {
    match items
    case NoItem => []
    case Item(v, more) => if more.NoItem? then JsonBytes(v) else JsonBytes(v) + Ascii(",") + ItemBytes(more)
  }

  function MemberBytes(members: Members): seq<byte> {
    match members
    case NoMember => []
    case Member(field, more) =>
      if more.NoMember? then FieldBytes(field) else FieldBytes(field) + Ascii(",") + MemberBytes(more)
  }

  function FieldBytes(f: Field): seq<byte> {
    f.before + Quoted(f.key) + f.after + Ascii(":") + JsonBytes(f.value)
  }

  function Max(a: nat, b: nat): nat { if a < b then b else a }

  /** How deep brackets are nested. */
  function Nested(v: Json): nat {
    match v
    case Literal(_) => 0
    case Text(_) => 0
    case Array(items) => 1 + ItemsNested(items)
    case Object(members) => 1 + MembersNested(members)
    case Spaced(_, value, _) => Nested(value)
  }

  function ItemsNested(items: Items): nat {
    match items
    case NoItem => 0
    case Item(v, more) => Max(Nested(v), ItemsNested(more))
  }

  function MembersNested(members: Members): nat {
    match members
    case NoMember => 0
    case Member(field, more) => Max(Nested(field.value), MembersNested(more))
  }

  // ---- The scan over a part -------------------------------------------------------------------------

  function ScanOn(s: Scan, text: seq<byte>): Scan {
    if text == [] then s
    else
      var l := |text| - 1;
      Nesting(InString(ScanOn(s, text[..l]), text[l]), text[l])
  }

  lemma {:induction false} ScanToIs(data: seq<byte>, i: nat)
    requires i <= |data|
    ensures ScanTo(data, i) == ScanOn(Scan(0, false, false), data[..i])
  {
    hide InString, Nesting;
    if i > 0 {
      ScanToIs(data, i - 1);
      assert data[..i][..i - 1] == data[..i - 1];
    }
  }

  lemma {:induction false} ScanOnAppend(s: Scan, a: seq<byte>, b: seq<byte>)
    ensures ScanOn(s, a + b) == ScanOn(ScanOn(s, a), b)
  {
    hide InString, Nesting;
    if b == [] {
      assert a + b == a;
    } else {
      var l := |b| - 1;
      ScanOnAppend(s, a, b[..l]);
      assert (a + b)[..|a| + l] == a + b[..l] && (a + b)[|a| + l] == b[l];
    }
  }

  /** The 32-bit depth at nesting x. */
  function DepthAt(x: nat): int {
    var y := x % 0x1_0000_0000;
    if y < 0x8000_0000 then y else y - 0x1_0000_0000
  }

  function Outside(x: nat): Scan {
    Scan(DepthAt(x), false, false)
  }

  lemma {:induction false} DepthSteps(x: nat)
    ensures Wrap32(DepthAt(x) + 1) == DepthAt(x + 1) && Wrap32(DepthAt(x + 1) - 1) == DepthAt(x)
  {
    var y := x % 0x1_0000_0000;
    assert (x + 1) % 0x1_0000_0000 == if y == 0xFFFF_FFFF then 0 else y + 1;
  }

  /** A comma that would be a cut. */
  predicate Cuts(s: Scan, c: byte) {
    c == COMMA && !s.inStr && s.depth == 1
  }

  /** Scanned at nesting x, the text leads back there and is not cut. */
  ghost predicate Quiet(text: seq<byte>, x: nat) {
    && ScanOn(Outside(x), text) == Outside(x)
    && forall i :: 0 <= i < |text| ==> !Cuts(ScanOn(Outside(x), text[..i]), text[i])
  }

  lemma {:induction false} QuietNone(x: nat)
    ensures Quiet([], x)
  {
  }

  lemma {:induction false} QuietAppend(a: seq<byte>, b: seq<byte>, x: nat)
    requires Quiet(a, x) && Quiet(b, x)
    ensures Quiet(a + b, x)
  {
    hide ScanOn, Cuts;
    ScanOnAppend(Outside(x), a, b);
    forall i | 0 <= i < |a + b|
      ensures !Cuts(ScanOn(Outside(x), (a + b)[..i]), (a + b)[i])
    {
      if i < |a| {
        assert (a + b)[..i] == a[..i];
      } else {
        assert (a + b)[..i] == a + b[..i - |a|];
        ScanOnAppend(Outside(x), a, b[..i - |a|]);
      }
    }
  }

  lemma {:induction false} ScanOne(s: Scan, c: byte)
    ensures ScanOn(s, [c]) == Nesting(InString(s, c), c) && ScanOn(s, []) == s
  {
    assert [c][..0] == [];
  }

  /** A single byte that changes nothing. */
  lemma {:induction false} QuietByte(c: byte, x: nat)
    requires c !in Ascii("\"[]{}") && (c == COMMA ==> DepthAt(x) != 1)
    ensures Quiet([c], x)
  {
    hide ScanOn, DepthAt;
    Specials();
    ScanOne(Outside(x), c);
    assert [c][..0] == [];
  }

  lemma {:induction false} Specials()
    ensures Ascii("\"") == [QUOTE] && Ascii("\\") == [BACKSLASH] && Ascii(",") == [COMMA] && Ascii(":") == [0x3A]
    ensures Ascii("[") == [0x5B] && Ascii("]") == [0x5D] && Ascii("{") == [0x7B] && Ascii("}") == [0x7D]
    ensures Ascii("\"\\") == [QUOTE, BACKSLASH] && Ascii("\"[]{}") == [QUOTE, 0x5B, 0x5D, 0x7B, 0x7D]
    ensures Ascii("\",[]{}") == [QUOTE, COMMA, 0x5B, 0x5D, 0x7B, 0x7D]
  {
  }

  lemma {:induction false} QuietPlain(text: seq<byte>, x: nat)
    requires Plain(text)
    ensures Quiet(text, x)
  {
    hide Quiet;
    if text == [] {
      QuietNone(x);
    } else {
      var l := |text| - 1;
      QuietPlain(text[..l], x);
      Specials();
      hide Ascii;
      QuietByte(text[l], x);
      QuietAppend(text[..l], [text[l]], x);
      assert text[..l] + [text[l]] == text;
    }
  }

  // ---- Strings ---------------------------------------------------------------------------------------

  function Inside(x: nat): Scan {
    Scan(DepthAt(x), true, false)
  }

  /** Scanned inside a string, the text does not leave it. */
  ghost predicate Stays(text: seq<byte>, x: nat) {
    && ScanOn(Inside(x), text) == Inside(x)
    && forall i :: 0 <= i < |text| ==> ScanOn(Inside(x), text[..i]).inStr
  }

  lemma {:induction false} StaysAppend(a: seq<byte>, b: seq<byte>, x: nat)
    requires Stays(a, x) && Stays(b, x)
    ensures Stays(a + b, x)
  {
    hide ScanOn;
    ScanOnAppend(Inside(x), a, b);
    forall i | 0 <= i < |a + b|
      ensures ScanOn(Inside(x), (a + b)[..i]).inStr
    {
      if i < |a| {
        assert (a + b)[..i] == a[..i];
      } else {
        assert (a + b)[..i] == a + b[..i - |a|];
        ScanOnAppend(Inside(x), a, b[..i - |a|]);
      }
    }
  }

  lemma {:induction false} StaysChar(c: byte, x: nat)
    requires c != QUOTE && c != BACKSLASH
    ensures Stays([c], x)
  {
    hide ScanOn, DepthAt;
    ScanOne(Inside(x), c);
    assert [c][..0] == [];
  }

  lemma {:induction false} StaysEscaped(c: byte, x: nat)
    ensures Stays([BACKSLASH, c], x)
  {
    hide ScanOn, DepthAt;
    var behind := Scan(DepthAt(x), true, true);
    ScanOne(Inside(x), BACKSLASH);
    ScanOne(behind, c);
    ScanOnAppend(Inside(x), [BACKSLASH], [c]);
    assert [BACKSLASH] + [c] == [BACKSLASH, c];
    assert [BACKSLASH, c][..0] == [] && [BACKSLASH, c][..1] == [BACKSLASH];
  }

  lemma {:induction false} StaysChars(chars: seq<Char>, x: nat)
    requires GoodChars(chars)
    ensures Stays(CharBytes(chars), x)
  {
    hide Stays, Ascii;
    Specials();
    if chars == [] {
      StaysNone(x);
    } else {
      var rest := chars[1..];
      StaysChars(rest, x);
      match chars[0] {
        case Char(c) =>
          StaysChar(c, x);
          StaysAppend([c], CharBytes(rest), x);
        case Escaped(c) =>
          StaysEscaped(c, x);
          assert [BACKSLASH] + [c] == [BACKSLASH, c];
          StaysAppend([BACKSLASH, c], CharBytes(rest), x);
      }
    }
  }

  lemma {:induction false} StaysNone(x: nat)
    ensures Stays([], x)
  {
  }

  lemma {:induction false} QuietInQuotes(text: seq<byte>, x: nat)
    requires Stays(text, x)
    ensures Quiet([QUOTE] + text + [QUOTE], x)
  {
    hide ScanOn, DepthAt;
    var all := [QUOTE] + text + [QUOTE];
    ScanOne(Outside(x), QUOTE);
    ScanOne(Inside(x), QUOTE);
    ScanOnAppend(Outside(x), [QUOTE], text);
    ScanOnAppend(Outside(x), [QUOTE] + text, [QUOTE]);
    forall i | 0 <= i < |all|
      ensures !Cuts(ScanOn(Outside(x), all[..i]), all[i])
    {
      if 0 < i <= |text| {
        assert all[..i] == [QUOTE] + text[..i - 1];
        ScanOnAppend(Outside(x), [QUOTE], text[..i - 1]);
      }
    }
  }

  lemma {:induction false} QuietQuoted(chars: seq<Char>, x: nat)
    requires GoodChars(chars)
    ensures Quiet(Quoted(chars), x)
  {
    hide Quiet, Stays, Ascii;
    Specials();
    StaysChars(chars, x);
    QuietInQuotes(CharBytes(chars), x);
  }

  // ---- Brackets ----------------------------------------------------------------------------------------

  lemma {:induction false} Opens(c: byte, x: nat)
    requires c == 0x5B || c == 0x7B
    ensures ScanOn(Outside(x), [c]) == Outside(x + 1)
  {
    hide ScanOn, DepthAt;
    ScanOne(Outside(x), c);
    DepthSteps(x);
  }

  lemma {:induction false} Closes(c: byte, x: nat)
    requires c == 0x5D || c == 0x7D
    ensures ScanOn(Outside(x + 1), [c]) == Outside(x)
  {
    hide ScanOn, DepthAt;
    ScanOne(Outside(x + 1), c);
    DepthSteps(x);
  }

  lemma {:induction false} QuietInBrackets(open: byte, text: seq<byte>, close: byte, x: nat)
    requires (open == 0x5B || open == 0x7B) && (close == 0x5D || close == 0x7D) && Quiet(text, x + 1)
    ensures Quiet([open] + text + [close], x)
  {
    hide ScanOn, Outside;
    var all := [open] + text + [close];
    Opens(open, x);
    Closes(close, x);
    ScanOnAppend(Outside(x), [open], text);
    ScanOnAppend(Outside(x), [open] + text, [close]);
    forall i | 0 <= i < |all|
      ensures !Cuts(ScanOn(Outside(x), all[..i]), all[i])
    {
      if 0 < i <= |text| {
        assert all[..i] == [open] + text[..i - 1] && all[i] == text[i - 1];
        ScanOnAppend(Outside(x), [open], text[..i - 1]);
      }
    }
  }

  // ---- Values ------------------------------------------------------------------------------------------

  /** As many levels as a 32-bit depth tells apart. */
  const LEVELS := 0x1_0000_0000

  lemma {:induction false} QuietJson(v: Json, x: nat)
    requires GoodJson(v) && 1 <= x && x + Nested(v) <= LEVELS
    ensures Quiet(JsonBytes(v), x)
    decreases v
  {
    hide Quiet, Ascii;
    Specials();
    match v {
      case Literal(text) =>
        QuietPlain(text, x);
      case Text(chars) =>
        QuietQuoted(chars, x);
      case Array(items) =>
        QuietItems(items, x + 1);
        QuietInBrackets(0x5B, ItemBytes(items), 0x5D, x);
      case Object(members) =>
        QuietMembers(members, x + 1);
        QuietInBrackets(0x7B, MemberBytes(members), 0x7D, x);
      case Spaced(before, value, after) =>
        QuietPlain(before, x);
        QuietPlain(after, x);
        QuietJson(value, x);
        QuietAppend(before, JsonBytes(value), x);
        QuietAppend(before + JsonBytes(value), after, x);
    }
  }

  lemma {:induction false} QuietComma(x: nat)
    requires 2 <= x <= LEVELS
    ensures Quiet([COMMA], x)
  {
    Specials();
    QuietByte(COMMA, x);
  }

  lemma {:induction false} QuietItems(items: Items, x: nat)
    requires GoodItems(items) && 2 <= x && x + ItemsNested(items) <= LEVELS
    ensures Quiet(ItemBytes(items), x)
    decreases items
  {
    hide Quiet, Ascii;
    Specials();
    match items {
      case NoItem =>
        QuietNone(x);
      case Item(v, more) =>
        QuietJson(v, x);
        QuietItems(more, x);
        QuietComma(x);
        QuietAppend(JsonBytes(v), [COMMA], x);
        QuietAppend(JsonBytes(v) + [COMMA], ItemBytes(more), x);
    }
  }

  lemma {:induction false} QuietMembers(members: Members, x: nat)
    requires GoodMembers(members) && 2 <= x && x + MembersNested(members) <= LEVELS
    ensures Quiet(MemberBytes(members), x)
    decreases members
  {
    hide Quiet, Ascii;
    Specials();
    match members {
      case NoMember =>
        QuietNone(x);
      case Member(f, more) =>
        QuietField(f, x);
        QuietMembers(more, x);
        QuietComma(x);
        QuietAppend(FieldBytes(f), [COMMA], x);
        QuietAppend(FieldBytes(f) + [COMMA], MemberBytes(more), x);
    }
  }

  lemma {:induction false} QuietField(f: Field, x: nat)
    requires GoodField(f) && 1 <= x && x + Nested(f.value) <= LEVELS
    ensures Quiet(FieldBytes(f), x)
    decreases f
  {
    hide Quiet, Ascii;
    Specials();
    QuietPlain(f.before, x);
    QuietQuoted(f.key, x);
    QuietPlain(f.after, x);
    QuietByte(0x3A, x);
    QuietJson(f.value, x);
    QuietAppend(f.before, Quoted(f.key), x);
    QuietAppend(f.before + Quoted(f.key), f.after, x);
    QuietAppend(f.before + Quoted(f.key) + f.after, [0x3A], x);
    QuietAppend(f.before + Quoted(f.key) + f.after + [0x3A], JsonBytes(f.value), x);
  }

  // ---- Records ------------------------------------------------------------------------------------------

  /** A head, records separated by commas, and a tail. */
  function Listed(head: seq<byte>, records: seq<seq<byte>>): seq<byte>
    requires records != []
  {
    var l := |records| - 1;
    if l == 0 then head + records[0] else Listed(head, records[..l]) + Ascii(",") + records[l]
  }

  /** The head with the first record, and every other record with the comma before it. */
  function Separate(head: seq<byte>, records: seq<seq<byte>>): seq<seq<byte>>
    requires records != []
  {
    var l := |records| - 1;
    if l == 0 then [head + records[0]] else Separate(head, records[..l]) + [Ascii(",") + records[l]]
  }

  /** The tail goes with the last piece. */
  function WithTail(pieces: seq<seq<byte>>, tail: seq<byte>): seq<seq<byte>>
    requires pieces != []
  {
    pieces[..|pieces| - 1] + [pieces[|pieces| - 1] + tail]
  }

  ghost predicate QuietRecords(records: seq<seq<byte>>) {
    records != [] && forall i :: 0 <= i < |records| ==> Quiet(records[i], 1)
  }

  /** The head opens the list: the scan is at nesting 1 behind it, and it holds no comma. */
  ghost predicate IsHead(head: seq<byte>) {
    head != [] && COMMA !in head && ScanOn(Outside(0), head) == Outside(1)
  }

  lemma {:induction false} ScanStart(data: seq<byte>, i: nat)
    requires i <= |data|
    ensures ScanTo(data, i) == ScanOn(Outside(0), data[..i])
  {
    hide ScanOn, ScanTo;
    assert DepthAt(0) == 0;
    ScanToIs(data, i);
  }

  lemma {:induction false} BehindComma()
    ensures ScanOn(Outside(1), [COMMA]) == Outside(1)
  {
    hide ScanOn, DepthAt;
    ScanOne(Outside(1), COMMA);
  }

  /** Behind every record the scan is at nesting 1 again. */
  lemma {:induction false} ScanListed(head: seq<byte>, records: seq<seq<byte>>)
    requires IsHead(head) && QuietRecords(records)
    ensures ScanOn(Outside(0), Listed(head, records)) == Outside(1)
    ensures Listed(head, records) != []
  {
    hide ScanOn, Ascii;
    Specials();
    var l := |records| - 1;
    var last := records[l];
    assert Quiet(last, 1);
    if l == 0 {
      ScanOnAppend(Outside(0), head, last);
    } else {
      var front := Listed(head, records[..l]);
      ScanListed(head, records[..l]);
      BehindComma();
      ScanOnAppend(Outside(0), front, [COMMA]);
      ScanOnAppend(Outside(0), front + [COMMA], last);
    }
  }

  /** No cut within a record that stands behind `before`, where the scan is at nesting 1. */
  lemma {:induction false} NoCutWithin(data: seq<byte>, before: seq<byte>, record: seq<byte>, j: nat)
    requires before + record <= data && ScanOn(Outside(0), before) == Outside(1) && Quiet(record, 1)
    requires |before| <= j < |before| + |record|
    ensures !RecordCut(data, j)
  {
    hide ScanOn, ScanTo, Outside;
    var t := j - |before|;
    assert data[..j] == before + record[..t] && data[j] == record[t];
    ScanStart(data, j);
    ScanOnAppend(Outside(0), before, record[..t]);
  }

  /** A comma where the scan is at nesting 1 is a cut. */
  lemma {:induction false} CutAtComma(data: seq<byte>, before: seq<byte>)
    requires before + [COMMA] <= data && ScanOn(Outside(0), before) == Outside(1)
    ensures RecordCut(data, |before|)
  {
    hide ScanOn, ScanTo;
    assert data[..|before|] == before && data[|before|] == COMMA;
    ScanStart(data, |before|);
    assert DepthAt(1) == 1;
  }

  /** The records are split off one by one. */
  lemma {:induction false} SeparateSplits(data: seq<byte>, head: seq<byte>, records: seq<seq<byte>>)
    requires IsHead(head) && QuietRecords(records) && Listed(head, records) <= data
    ensures Splits(data, |Listed(head, records)|, Separate(head, records), Records)
  {
    hide Splits, ScanOn, RecordCut, Quiet, Ascii, Outside;
    Specials();
    var l := |records| - 1;
    var last := records[l];
    if l == 0 {
      NothingSplit(data, Records);
      FirstUncut(data, head, last);
      PushPiece(data, 0, |head + last|, [], Records);
      assert data[0..|head + last|] == head + last;
      assert [] + [head + last] == [head + last];
    } else {
      var front := Listed(head, records[..l]);
      var all := front + [COMMA] + last;
      assert front <= data by {
        assert front == all[..|front|] == data[..|all|][..|front|];
      }
      SeparateSplits(data, head, records[..l]);
      ScanListed(head, records[..l]);
      NextUncut(data, front, last);
      PushPiece(data, |front|, |all|, Separate(head, records[..l]), Records);
      assert data[|front|..|all|] == [COMMA] + last by {
        assert data[..|all|] == all;
        assert data[|front|..|all|] == all[|front|..];
      }
    }
  }

  lemma {:induction false} FirstUncut(data: seq<byte>, head: seq<byte>, record: seq<byte>)
    requires IsHead(head) && Quiet(record, 1) && head + record <= data
    ensures forall j :: 0 < j < |head + record| ==> !RecordCut(data, j)
  {
    hide ScanOn, RecordCut, Quiet, ScanTo;
    forall j | 0 < j < |head + record|
      ensures !RecordCut(data, j)
    {
      if j < |head| {
        assert data[j] == (head + record)[j] == head[j];
        NotComma(data, j);
      } else {
        NoCutWithin(data, head, record, j);
      }
    }
  }

  lemma {:induction false} NotComma(data: seq<byte>, j: nat)
    requires j < |data| && data[j] != COMMA
    ensures !RecordCut(data, j)
  {
  }

  lemma {:induction false} NextUncut(data: seq<byte>, front: seq<byte>, record: seq<byte>)
    requires front + [COMMA] + record <= data && ScanOn(Outside(0), front) == Outside(1) && Quiet(record, 1)
    ensures RecordCut(data, |front|)
    ensures forall j :: |front| < j < |front| + 1 + |record| ==> !RecordCut(data, j)
  {
    hide ScanOn, RecordCut, Quiet;
    var before := front + [COMMA];
    assert before <= data by {
      assert before == (before + record)[..|before|] == data[..|before + record|][..|before|];
    }
    CutAtComma(data, front);
    BehindComma();
    ScanOnAppend(Outside(0), front, [COMMA]);
    forall j | |front| < j < |front| + 1 + |record|
      ensures !RecordCut(data, j)
    {
      NoCutWithin(data, before, record, j);
    }
  }

  /** A list of records is cut into exactly these pieces. */
  lemma {:induction false} RecordsAreCut(head: seq<byte>, records: seq<seq<byte>>, tail: seq<byte>)
    requires IsHead(head) && QuietRecords(records) && COMMA !in tail
    ensures Separate(head, records) != []
    ensures var data := Listed(head, records) + tail;
      Pieces(Records, data, |data|) == WithTail(Separate(head, records), tail)
  {
    hide Splits, ScanOn, RecordCut, Quiet, Ascii, Pieces, IsHead;
    var data := Listed(head, records) + tail;
    LastWithTail(data, head, records, tail);
    SplitsUnique(data, |data|, WithTail(Separate(head, records), tail), Records);
  }

  lemma {:induction false} LastWithTail(data: seq<byte>, head: seq<byte>, records: seq<seq<byte>>, tail: seq<byte>)
    requires IsHead(head) && QuietRecords(records) && COMMA !in tail && data == Listed(head, records) + tail
    ensures Separate(head, records) != []
    ensures Splits(data, |data|, WithTail(Separate(head, records), tail), Records)
  {
    hide Splits, ScanOn, RecordCut, Quiet, Ascii, Outside;
    Specials();
    var l := |records| - 1;
    var last := records[l];
    forall j | |Listed(head, records)| <= j < |data|
      ensures !RecordCut(data, j)
    {
      assert data[j] == tail[j - |Listed(head, records)|];
      NotComma(data, j);
    }
    if l == 0 {
      NothingSplit(data, Records);
      FirstUncut(data, head, last);
      PushPiece(data, 0, |data|, [], Records);
      assert data[0..|data|] == head + last + tail;
      assert [] + [head + last + tail] == [head + last + tail] == WithTail([head + last], tail);
    } else {
      var front := Listed(head, records[..l]);
      assert data == front + ([COMMA] + last + tail);
      SeparateSplits(data, head, records[..l]);
      ScanListed(head, records[..l]);
      NextUncut(data, front, last);
      PushPiece(data, |front|, |data|, Separate(head, records[..l]), Records);
      assert data[|front|..|data|] == [COMMA] + last + tail;
      assert WithTail(Separate(head, records), tail) == Separate(head, records[..l]) + [[COMMA] + last + tail];
    }
  }

  // ---- Arrays and objects ---------------------------------------------------------------------------------

  lemma {:induction false} HeadOpens(before: seq<byte>, open: byte)
    requires Plain(before) && (open == 0x5B || open == 0x7B)
    ensures IsHead(before + [open])
  {
    hide ScanOn, Ascii;
    Specials();
    PlainStays(before);
    ScanOnAppend(Outside(0), before, [open]);
    Opens(open, 0);
  }

  lemma {:induction false} PlainStays(text: seq<byte>)
    requires Plain(text)
    ensures ScanOn(Outside(0), text) == Outside(0)
  {
    hide Outside, ScanOn;
    QuietPlain(text, 0);
  }

  /** An array is cut into its values, whatever they hold, with white space around it. */
  lemma {:induction false} ArrayRecords(before: seq<byte>, values: seq<Json>, after: seq<byte>)
    requires values != [] && Plain(before) && Plain(after)
    requires forall i :: 0 <= i < |values| ==> GoodJson(values[i]) && Nested(values[i]) < LEVELS
    ensures var texts := seq(|values|, i requires 0 <= i < |values| => JsonBytes(values[i]));
      var pieces := Separate(before + Ascii("["), texts);
      var data := Listed(before + Ascii("["), texts) + Ascii("]") + after;
      pieces != [] && Pieces(Records, data, |data|) == WithTail(pieces, Ascii("]") + after)
  {
    hide Quiet, Ascii, Pieces, IsHead, Separate, Listed;
    Specials();
    var texts := seq(|values|, i requires 0 <= i < |values| => JsonBytes(values[i]));
    forall i | 0 <= i < |values|
      ensures Quiet(texts[i], 1)
    {
      QuietJson(values[i], 1);
    }
    HeadOpens(before, 0x5B);
    var tail := [0x5D] + after;
    RecordsAreCut(before + [0x5B], texts, tail);
    assert Listed(before + [0x5B], texts) + [0x5D] + after == Listed(before + [0x5B], texts) + tail;
  }

  /** An object is cut into its members. */
  lemma {:induction false} ObjectRecords(before: seq<byte>, fields: seq<Field>, after: seq<byte>)
    requires fields != [] && Plain(before) && Plain(after)
    requires forall i :: 0 <= i < |fields| ==> GoodField(fields[i]) && Nested(fields[i].value) < LEVELS
    ensures var texts := seq(|fields|, i requires 0 <= i < |fields| => FieldBytes(fields[i]));
      var pieces := Separate(before + Ascii("{"), texts);
      var data := Listed(before + Ascii("{"), texts) + Ascii("}") + after;
      pieces != [] && Pieces(Records, data, |data|) == WithTail(pieces, Ascii("}") + after)
  {
    hide Quiet, Ascii, Pieces, IsHead, Separate, Listed;
    Specials();
    var texts := seq(|fields|, i requires 0 <= i < |fields| => FieldBytes(fields[i]));
    forall i | 0 <= i < |fields|
      ensures Quiet(texts[i], 1)
    {
      QuietField(fields[i], 1);
    }
    HeadOpens(before, 0x7B);
    var tail := [0x7D] + after;
    RecordsAreCut(before + [0x7B], texts, tail);
    assert Listed(before + [0x7B], texts) + [0x7D] + after == Listed(before + [0x7B], texts) + tail;
  }
}
