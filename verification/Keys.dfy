/** Key files: text lines that name keys, collected into tables by type and generation. */
module Keys {
  import opened Bits
  import opened Wrappers
  import opened Numerals

  // -- Text ----------------------------------------------------------------------------------

  predicate IsSpace(c: char) { c == ' ' || '\t' <= c <= '\r' }

  /** White space is space, tab, line feed, vertical tab, form feed and carriage return. */
  lemma SpaceCodes(c: char)
    ensures IsSpace(c) <==> c as int in {32, 9, 10, 11, 12, 13}
  {
  }

  function TrimStart(s: string): string { if s != [] && IsSpace(s[0]) then TrimStart(s[1..]) else s }

  function TrimEnd(s: string): string { if s != [] && IsSpace(s[|s| - 1]) then TrimEnd(s[..|s| - 1]) else s }

  function Trim(s: string): string { TrimEnd(TrimStart(s)) }

  function LowerChar(c: char): (l: char)
    ensures 'A' <= c <= 'Z' ==> l as int - 'a' as int == c as int - 'A' as int
    ensures !('A' <= c <= 'Z') ==> l == c
  {
    if 'A' <= c <= 'Z' then ((c as int) + 32) as char else c
  }

  function Lower(s: string): (l: string)
    ensures |l| == |s| && forall i :: 0 <= i < |s| ==> l[i] == LowerChar(s[i])
  {
    if s == [] then [] else [LowerChar(s[0])] + Lower(s[1..])
  }

  function Without(s: string, c: char): (r: string)
    ensures c !in r && (c !in s ==> r == s)
  {
    if s == [] then [] else (if s[0] == c then [] else [s[0]]) + Without(s[1..], c)
  }

  lemma Regroup(head: string, x: string, y: string, z: string)
    requires z == x + y
    ensures head + z == (head + x) + y
  {
  }

  /** All other characters stay, in their order. */
  lemma {:induction false} WithoutAppend(a: string, b: string, c: char, ab: string)
    requires ab == a + b
    ensures Without(ab, c) == Without(a, c) + Without(b, c)
    decreases |a|
  {
    if a == [] {
      assert ab == b;
    } else {
      WithoutAppend(a[1..], b, c, ab[1..]);
      Regroup(if a[0] == c then [] else [a[0]], Without(a[1..], c), Without(b, c), Without(ab[1..], c));
    }
  }

  /** The position of the first `c`, or the length. */
  function Find(s: string, c: char): (i: nat)
    ensures i <= |s| && (i < |s| ==> s[i] == c)
    ensures forall k :: 0 <= k < i ==> s[k] != c
  {
    if s == [] || s[0] == c then 0 else 1 + Find(s[1..], c)
  }

  /** The pieces between line feeds. Carriage returns fall to the trimming of each line. */
  function Lines(text: string): (ls: seq<string>)
    decreases |text|
  {
    var i := Find(text, '\n');
    if i == |text| then [text] else [text[..i]] + Lines(text[i + 1..])
  }

  /** The pieces with a line feed between any two. */
  function Joined(ls: seq<string>): string {
    if |ls| == 0 then [] else if |ls| == 1 then ls[0] else ls[0] + ['\n'] + Joined(ls[1..])
  }

  /** The lines of a text are what it is joined of. */
  lemma {:induction false} LinesJoined(text: string)
    ensures |Lines(text)| >= 1 && Joined(Lines(text)) == text
    decreases |text|
  {
    var i := Find(text, '\n');
    if i < |text| {
      LinesJoined(text[i + 1..]);
      JoinedFirst(text[..i], Lines(text[i + 1..]));
      FirstLine(text, i);
    }
  }

  lemma JoinedFirst(line: string, rest: seq<string>)
    requires |rest| >= 1
    ensures Joined([line] + rest) == line + ['\n'] + Joined(rest)
  {
    assert ([line] + rest)[1..] == rest;
  }

  lemma FirstLine(text: string, i: nat)
    requires i < |text| && text[i] == '\n'
    ensures text == text[..i] + ['\n'] + text[i + 1..]
  {
  }

  /** No line goes over a line feed. */
  lemma {:induction false} LinesWhole(text: string, k: nat)
    requires k < |Lines(text)|
    ensures '\n' !in Lines(text)[k]
    decreases |text|
  {
    var i := Find(text, '\n');
    if i < |text| && k > 0 {
      LinesWhole(text[i + 1..], k - 1);
    }
  }

  ghost predicate AllSpace(s: string) { forall i :: 0 <= i < |s| ==> IsSpace(s[i]) }

  /** There is something, and no white space before or after it. */
  predicate Tight(s: string) { s != [] && !IsSpace(s[0]) && !IsSpace(s[|s| - 1]) }

  lemma {:induction false} TrimStartDrops(lead: string, s: string)
    requires AllSpace(lead) && (s == [] || !IsSpace(s[0]))
    ensures TrimStart(lead + s) == s
  {
    if lead == [] {
      assert lead + s == s;
    } else {
      TrimStartDrops(lead[1..], s);
      assert (lead + s)[1..] == lead[1..] + s;
    }
  }

  lemma LastOff(s: string, tail: string)
    requires tail != []
    ensures var t, n := s + tail, |tail| - 1; t[|t| - 1] == tail[n] && t[..|t| - 1] == s + tail[..n]
  {
  }

  lemma {:induction false} TrimEndDrops(s: string, tail: string)
    requires AllSpace(tail) && (s == [] || !IsSpace(s[|s| - 1]))
    ensures TrimEnd(s + tail) == s
    decreases |tail|
  {
    if tail == [] {
      assert s + tail == s;
    } else {
      var n := |tail| - 1;
      TrimEndDrops(s, tail[..n]);
      LastOff(s, tail);
    }
  }

  /** Trimming takes off the white space on both sides, and nothing else. */
  lemma TrimTight(lead: string, s: string, tail: string)
    requires AllSpace(lead) && AllSpace(tail) && Tight(s)
    ensures Trim(lead + s + tail) == s
  {
    assert lead + s + tail == lead + (s + tail);
    TrimStartDrops(lead, s + tail);
    TrimEndDrops(s, tail);
  }

  lemma TrimSpace(s: string)
    requires AllSpace(s)
    ensures Trim(s) == []
  {
    TrimStartDrops(s, []);
    assert s + [] == s;
  }

  lemma FindFirst(a: string, c: char, b: string)
    requires c !in a
    ensures Find(a + [c] + b, c) == |a|
  {
    var s := a + [c] + b;
    assert s[|a|] == c && forall k :: 0 <= k < |a| ==> s[k] == a[k] && a[k] != c;
  }

  // -- Hexadecimal ---------------------------------------------------------------------------

  function DecodeHex(s: string): (r: Option<seq<byte>>)
    ensures r.Some? ==> |s| == 2 * |r.value|
  {
    if |s| == 0 then Some([])
    else if |s| == 1 then None
    else
      match (ParseUnsigned(s[..2], 16, 256), DecodeHex(s[2..]))
      case (Some(b), Some(rest)) => Some([b as byte] + rest)
      case _ => None
  }

  function EncodeHex(bytes: seq<byte>): string {
    if bytes == [] then [] else [HexDigit(bytes[0] / 16), HexDigit(bytes[0] % 16)] + EncodeHex(bytes[1..])
  }

  lemma HexByte(b: byte)
    ensures ParseUnsigned([HexDigit(b / 16), HexDigit(b % 16)], 16, 256) == Some(b)
  {
    HexDigitValue(b / 16);
    HexDigitValue(b % 16);
    TwoDigits(HexDigit(b / 16), HexDigit(b % 16), 16, b / 16, b % 16);
  }

  lemma HexMore(pair: string, rest: string, b: byte, bytes: seq<byte>)
    requires |pair| == 2 && ParseUnsigned(pair, 16, 256) == Some(b) && DecodeHex(rest) == Some(bytes)
    ensures DecodeHex(pair + rest) == Some([b] + bytes)
  {
    assert (pair + rest)[..2] == pair && (pair + rest)[2..] == rest;
  }

  /** Key bytes written in hexadecimal are read back. */
  lemma {:induction false} HexRoundTrip(bytes: seq<byte>)
    ensures DecodeHex(EncodeHex(bytes)) == Some(bytes)
  {
    if bytes != [] {
      HexByte(bytes[0]);
      HexRoundTrip(bytes[1..]);
      HexMore([HexDigit(bytes[0] / 16), HexDigit(bytes[0] % 16)], EncodeHex(bytes[1..]), bytes[0], bytes[1..]);
      assert bytes == [bytes[0]] + bytes[1..];
    }
  }

  // -- Lines -----------------------------------------------------------------------------------

  datatype Entry = Entry(name: string, bytes: seq<byte>)

  /** What a line says: nothing for blank lines, comments, lines without an equals sign, and values that are not hex. */
  function EntryOf(line: string): Option<Entry> { Split(Trim(line)) }

  /** The same for a trimmed line. */
  function Split(l: string): Option<Entry> {
    if l == [] || l[0] == ';' || l[0] == '#' then None
    else
      var i := Find(l, '=');
      if i == |l| then None else NameAndValue(l[..i], l[i + 1..])
  }

  /** The two sides of the first equals sign. */
  function NameAndValue(left: string, right: string): Option<Entry> {
    match DecodeHex(Without(Trim(right), ' '))
    case None => None
    case Some(bytes) => Some(Entry(Lower(Trim(left)), bytes))
  }

  /** A line in its parts: a name and a value, with white space around both. */
  datatype Parts = Parts(lead: string, name: string, before: string, after: string, value: string, tail: string)

  ghost predicate Proper(p: Parts) {
    && AllSpace(p.lead) && AllSpace(p.before) && AllSpace(p.after) && AllSpace(p.tail)
    && Tight(p.name) && p.name[0] != ';' && p.name[0] != '#' && '=' !in p.name && Tight(p.value)
  }

  function LineOf(p: Parts): string { p.lead + (p.name + p.before + "=" + p.after + p.value) + p.tail }

  function NamePart(p: Parts): string { p.name + p.before }

  function ValuePart(p: Parts): string { p.after + p.value }

  lemma LineSplits(p: Parts)
    requires Proper(p)
    ensures EntryOf(LineOf(p)) == NameAndValue(NamePart(p), ValuePart(p))
  {
    var core := p.name + p.before + "=" + p.after + p.value;
    assert core == NamePart(p) + ['='] + ValuePart(p);
    TrimTight(p.lead, core, p.tail);
    NoEquals(p.before);
    SplitAt(NamePart(p), ValuePart(p));
  }

  lemma SplitAt(left: string, right: string)
    requires left != [] && left[0] != ';' && left[0] != '#' && '=' !in left
    ensures Split(left + ['='] + right) == NameAndValue(left, right)
  {
    FindFirst(left, '=', right);
    var l := left + ['='] + right;
    assert l[..|left|] == left && l[|left| + 1..] == right;
  }

  lemma PartsTrimmed(p: Parts)
    requires Proper(p)
    ensures Trim(NamePart(p)) == p.name && Trim(ValuePart(p)) == p.value
  {
    TrimTight([], p.name, p.before);
    assert [] + p.name + p.before == NamePart(p);
    TrimTight(p.after, p.value, []);
    assert p.after + p.value + [] == ValuePart(p);
  }

  lemma NameAndHex(left: string, right: string, name: string, value: string, bytes: seq<byte>)
    requires Trim(left) == name && Trim(right) == value && DecodeHex(Without(value, ' ')) == Some(bytes)
    ensures NameAndValue(left, right) == Some(Entry(Lower(name), bytes))
  {
  }

  /** A line as it is written gives its name in lower case and the bytes of its value, in which blanks do not count. */
  lemma WrittenEntry(p: Parts, bytes: seq<byte>)
    requires Proper(p) && Without(p.value, ' ') == EncodeHex(bytes)
    ensures EntryOf(LineOf(p)) == Some(Entry(Lower(p.name), bytes))
  {
    LineSplits(p);
    PartsTrimmed(p);
    HexRoundTrip(bytes);
    NameAndHex(NamePart(p), ValuePart(p), p.name, p.value, bytes);
  }

  lemma NoEquals(s: string)
    requires AllSpace(s)
    ensures '=' !in s
  {
  }

  /** Blank lines, comments and lines without an equals sign say nothing. */
  lemma SaysNothing(lead: string, line: string)
    requires AllSpace(lead)
    ensures EntryOf(lead) == None
    ensures line != [] && line[0] in {';', '#'} ==> EntryOf(lead + line) == None
    ensures '=' !in line ==> EntryOf(line) == None
  {
    TrimSpace(lead);
    if line != [] && line[0] in {';', '#'} {
      TrimStartDrops(lead, line);
      TrimEndPrefix(line);
    }
    if '=' !in line {
      TrimKeeps(line);
    }
  }

  /** What is left after trimming the end starts the text, and with a first character that is no white space. */
  lemma {:induction false} TrimEndPrefix(s: string)
    ensures TrimEnd(s) <= s && (s != [] && !IsSpace(s[0]) ==> TrimEnd(s) != [])
    decreases |s|
  {
    if s != [] && IsSpace(s[|s| - 1]) {
      TrimEndPrefix(s[..|s| - 1]);
    }
  }

  lemma {:induction false} TrimStartSuffix(s: string)
    ensures forall c :: c in TrimStart(s) ==> c in s
  {
    if s != [] && IsSpace(s[0]) {
      TrimStartSuffix(s[1..]);
    }
  }

  lemma TrimKeeps(s: string)
    ensures forall c :: c in Trim(s) ==> c in s
  {
    TrimStartSuffix(s);
    TrimEndPrefix(TrimStart(s));
  }

  datatype Table = Application | System | Ocean | TitleKek

  function Prefix(t: Table): string {
    match t
    case Application => "key_area_key_application_"
    case System => "key_area_key_system_"
    case Ocean => "key_area_key_ocean_"
    case TitleKek => "title_kek_"
  }

  function ParseHexSuffix(name: string, prefix: string): Option<nat>
    requires prefix <= name
  {
    ParseUnsigned(name[|prefix|..], 16, 0x1_0000_0000_0000_0000)
  }

  /** The table and the index a key name stands for. */
  function TargetOf(name: string): Option<(Table, nat)> {
    if Prefix(Application) <= name then At(Application, ParseHexSuffix(name, Prefix(Application)))
    else if Prefix(System) <= name then At(System, ParseHexSuffix(name, Prefix(System)))
    else if Prefix(Ocean) <= name then At(Ocean, ParseHexSuffix(name, Prefix(Ocean)))
    else if Prefix(TitleKek) <= name then At(TitleKek, ParseHexSuffix(name, Prefix(TitleKek)))
    else None
  }

  function At(t: Table, index: Option<nat>): Option<(Table, nat)> {
    if index.Some? then Some((t, index.value)) else None
  }

  /** The hexadecimal number behind the prefix of a name. */
  function Behind(name: string, prefix: string): Option<nat> {
    if prefix <= name then ParseUnsigned(name[|prefix|..], 16, 0x1_0000_0000_0000_0000) else None
  }

  /** The index that a line names behind a prefix. */
  function IndexBehind(line: string, prefix: string): Option<nat> {
    match EntryOf(line)
    case None => None
    case Some(e) => Behind(e.name, prefix)
  }

  /** No name starts with two of the prefixes. */
  lemma PrefixesApart(t: Table, u: Table, name: string)
    requires Prefix(t) <= name && Prefix(u) <= name
    ensures t == u && name != "header_key"
  {
    assert name[0] == Prefix(t)[0] == Prefix(u)[0];
    if t != TitleKek && u != TitleKek {
      assert name[13] == Prefix(t)[13] == Prefix(u)[13];
    }
  }

  lemma TargetBehind(name: string, t: Table)
    requires Prefix(t) <= name
    ensures TargetOf(name) == At(t, ParseHexSuffix(name, Prefix(t))) && name != "header_key"
  {
    forall u | Prefix(u) <= name ensures u == t && name != "header_key" {
      PrefixesApart(t, u, name);
    }
  }

  lemma TargetHasPrefix(name: string)
    requires TargetOf(name).Some?
    ensures Prefix(TargetOf(name).value.0) <= name
  {
  }

  /** The table and the index that a line names. */
  function TargetOfLine(line: string): Option<(Table, nat)> {
    var e := EntryOf(line);
    if e.Some? && e.value.name != "header_key" then TargetOf(e.value.name) else None
  }

  /** What a line names is the table of its prefix and the index behind it. */
  lemma TargetIs(line: string, t: Table)
    ensures IndexBehind(line, Prefix(t)) ==
            if TargetOfLine(line).Some? && TargetOfLine(line).value.0 == t
            then Some(TargetOfLine(line).value.1) else None
  {
    var e := EntryOf(line);
    if e.Some? {
      if Prefix(t) <= e.value.name {
        TargetBehind(e.value.name, t);
      } else if TargetOf(e.value.name).Some? {
        TargetHasPrefix(e.value.name);
      }
    }
  }

  // -- What the lines write ----------------------------------------------------------------------

  type Key = s: seq<byte> | |s| == 16 witness seq(16, _ => 0)

  function ZeroKey(): (k: Key)
    ensures forall i :: 0 <= i < 16 ==> k[i] == 0
  {
    seq(16, _ => 0)
  }

  /** A value that some lines give, each time replacing the last one. */
  type Writer<!T> = string -> Option<T>

  function Last<T>(lines: seq<string>, w: Writer<T>): Option<T> {
    if lines == [] then None
    else if w(lines[|lines| - 1]).Some? then w(lines[|lines| - 1])
    else Last(lines[..|lines| - 1], w)
  }

  lemma LastSnoc<T>(lines: seq<string>, line: string, w: Writer<T>)
    ensures Last(lines + [line], w) == if w(line).Some? then w(line) else Last(lines, w)
  {
    assert (lines + [line])[..|lines|] == lines;
  }

  /** The last line to give a value decides, and without any there is none. */
  lemma {:induction false} LastDecides<T>(lines: seq<string>, w: Writer<T>, k: nat)
    requires k <= |lines| && forall j :: k < j < |lines| ==> w(lines[j]) == None
    requires k < |lines| ==> w(lines[k]).Some?
    requires k == |lines| ==> forall j :: 0 <= j < |lines| ==> w(lines[j]) == None
    ensures Last(lines, w) == if k < |lines| then w(lines[k]) else None
    decreases |lines|
  {
    if lines != [] && k != |lines| - 1 {
      LastDecides(lines[..|lines| - 1], w, if k < |lines| then k else k - 1);
    }
  }

  /** A key for index `g` behind a prefix. */
  function KeyAt(prefix: string, g: nat): Writer<Key> {
    (line: string) =>
      match EntryOf(line)
      case None => None
      case Some(e) => if Behind(e.name, prefix) == Some(g) && |e.bytes| == 16 then Some(e.bytes) else None
  }

  function HeaderKey(): Writer<seq<byte>> {
    (line: string) =>
      var e := EntryOf(line);
      if e.Some? && e.value.name == "header_key" && |e.value.bytes| == 32 then Some(e.value.bytes) else None
  }

  function Raw(name: string): Writer<seq<byte>> {
    (line: string) =>
      var e := EntryOf(line);
      if e.Some? && e.value.name == name then Some(e.value.bytes) else None
  }

  /** The line names an index behind the prefix that is at least `g`. */
  predicate Reaches(line: string, prefix: string, g: nat) {
    var index := IndexBehind(line, prefix);
    index.Some? && index.value >= g
  }

  ghost predicate Reached(lines: seq<string>, prefix: string, g: nat) {
    exists k :: 0 <= k < |lines| && Reaches(lines[k], prefix, g)
  }

  // -- Key sets --------------------------------------------------------------------------------

  datatype KeySet = KeySet(headerKey: Option<seq<byte>>, application: seq<Key>, system: seq<Key>, ocean: seq<Key>,
                           titleKek: seq<Key>, raw: map<string, seq<byte>>)

  function TableOf(ks: KeySet, t: Table): seq<Key> {
    match t
    case Application => ks.application
    case System => ks.system
    case Ocean => ks.ocean
    case TitleKek => ks.titleKek
  }

  function WithTable(ks: KeySet, t: Table, table: seq<Key>): KeySet {
    match t
    case Application => ks.(application := table)
    case System => ks.(system := table)
    case Ocean => ks.(ocean := table)
    case TitleKek => ks.(titleKek := table)
  }

  lemma WithTableOf(ks: KeySet, t: Table, table: seq<Key>, u: Table)
    ensures TableOf(WithTable(ks, t, table), u) == if u == t then table else TableOf(ks, u)
  {
  }

  function OrZero(k: Option<Key>): Key { if k.Some? then k.value else ZeroKey() }

  /** The table has a key for `g` just when some line names an index of at least `g`, and it is the last one
      given for `g`, or zeros. */
  ghost predicate TableHolds(table: seq<Key>, prefix: string, lines: seq<string>) {
    && (forall g: nat :: Reached(lines, prefix, g) <==> g < |table|)
    && (forall g: nat :: g < |table| ==> table[g] == OrZero(Last(lines, KeyAt(prefix, g))))
  }

  ghost predicate RawHolds(raw: map<string, seq<byte>>, lines: seq<string>) {
    forall name :: (if name in raw then Some(raw[name]) else None) == Last(lines, Raw(name))
  }

  ghost predicate TablesHold(ks: KeySet, lines: seq<string>) {
    forall t :: TableHolds(TableOf(ks, t), Prefix(t), lines)
  }

  /** The key set the lines stand for. */
  ghost predicate Holds(ks: KeySet, lines: seq<string>) {
    && TableHolds(ks.application, "key_area_key_application_", lines)
    && TableHolds(ks.system, "key_area_key_system_", lines)
    && TableHolds(ks.ocean, "key_area_key_ocean_", lines)
    && TableHolds(ks.titleKek, "title_kek_", lines)
    && ks.headerKey == Last(lines, HeaderKey())
    && RawHolds(ks.raw, lines)
  }

  lemma HoldsTables(ks: KeySet, lines: seq<string>)
    requires Holds(ks, lines)
    ensures TablesHold(ks, lines)
  {
    forall t ensures TableHolds(TableOf(ks, t), Prefix(t), lines) {
    }
  }

  lemma TablesHolds(ks: KeySet, lines: seq<string>)
    requires TablesHold(ks, lines) && ks.headerKey == Last(lines, HeaderKey()) && RawHolds(ks.raw, lines)
    ensures Holds(ks, lines)
  {
    TableIs(ks, Application, lines);
    TableIs(ks, System, lines);
    TableIs(ks, Ocean, lines);
    TableIs(ks, TitleKek, lines);
  }

  /** What a table is called in the key set, and its lines in the text. */
  ghost predicate Named(ks: KeySet, t: Table, lines: seq<string>) {
    match t
    case Application => TableHolds(ks.application, "key_area_key_application_", lines)
    case System => TableHolds(ks.system, "key_area_key_system_", lines)
    case Ocean => TableHolds(ks.ocean, "key_area_key_ocean_", lines)
    case TitleKek => TableHolds(ks.titleKek, "title_kek_", lines)
  }

  lemma TableIs(ks: KeySet, t: Table, lines: seq<string>)
    ensures TablesHold(ks, lines) ==> Named(ks, t, lines)
  {
    assert TablesHold(ks, lines) ==> TableHolds(TableOf(ks, t), Prefix(t), lines);
  }

  // -- Parsing ---------------------------------------------------------------------------------

  /** Pad the table with zero keys up to a length. */
  method EnsureLen(table: seq<Key>, len: nat) returns (r: seq<Key>)
    ensures |r| == if |table| < len then len else |table|
    ensures forall g :: 0 <= g < |r| ==> r[g] == if g < |table| then table[g] else ZeroKey()
  {
    r := table;
    while |r| < len
      invariant |table| <= |r| && (|r| <= len || r == table)
      invariant forall g :: 0 <= g < |r| ==> r[g] == if g < |table| then table[g] else ZeroKey()
    {
      r := r + [ZeroKey()];
    }
  }

  /** A key line for this table: the table reaches its index, and a 16-byte key is stored there. */
  method StoreKey(table: seq<Key>, index: nat, bytes: seq<byte>, ghost prefix: string, ghost lines: seq<string>,
                  ghost line: string)
    returns (r: seq<Key>)
    requires TableHolds(table, prefix, lines)
    requires IndexBehind(line, prefix) == Some(index) && EntryOf(line).value.bytes == bytes
    ensures TableHolds(r, prefix, lines + [line])
  {
    r := EnsureLen(table, index + 1);
    if |bytes| == 16 {
      r := r[index := bytes];
    }
    StoreHolds(table, r, index, bytes, prefix, lines, line);
  }

  lemma StoreHolds(table: seq<Key>, r: seq<Key>, index: nat, bytes: seq<byte>, prefix: string, lines: seq<string>,
                   line: string)
    requires TableHolds(table, prefix, lines)
    requires IndexBehind(line, prefix) == Some(index) && EntryOf(line).value.bytes == bytes
    requires |r| == if |table| < index + 1 then index + 1 else |table|
    requires forall g :: 0 <= g < |r| ==>
      r[g] == if g == index && |bytes| == 16 then bytes else if g < |table| then table[g] else ZeroKey()
    ensures TableHolds(r, prefix, lines + [line])
  {
    forall g: nat ensures Reached(lines + [line], prefix, g) <==> g < |r| {
      ReachesSnoc(lines, line, prefix, g);
    }
    forall g: nat | g < |r| ensures r[g] == OrZero(Last(lines + [line], KeyAt(prefix, g))) {
      LastSnoc(lines, line, KeyAt(prefix, g));
      if g >= |table| {
        Unreached(lines, prefix, g);
      }
    }
  }

  lemma ReachesSnoc(lines: seq<string>, line: string, prefix: string, g: nat)
    ensures Reached(lines + [line], prefix, g) <==> Reached(lines, prefix, g) || Reaches(line, prefix, g)
  {
    var more := lines + [line];
    if Reaches(line, prefix, g) {
      assert more[|lines|] == line;
    }
    if Reached(lines, prefix, g) {
      var k :| 0 <= k < |lines| && Reaches(lines[k], prefix, g);
      assert more[k] == lines[k];
    }
  }

  lemma {:induction false} Unreached(lines: seq<string>, prefix: string, g: nat)
    requires !Reached(lines, prefix, g)
    ensures Last(lines, KeyAt(prefix, g)) == None
  {
    if lines != [] {
      assert !Reaches(lines[|lines| - 1], prefix, g);
      assert lines[..|lines| - 1] + [lines[|lines| - 1]] == lines;
      ReachesSnoc(lines[..|lines| - 1], lines[|lines| - 1], prefix, g);
      Unreached(lines[..|lines| - 1], prefix, g);
    }
  }

  /** A line for something else leaves a table as it was. */
  lemma OtherHolds(table: seq<Key>, prefix: string, lines: seq<string>, line: string)
    requires TableHolds(table, prefix, lines) && IndexBehind(line, prefix).None?
    ensures TableHolds(table, prefix, lines + [line])
  {
    forall g: nat ensures Reached(lines + [line], prefix, g) <==> g < |table| {
      ReachesSnoc(lines, line, prefix, g);
    }
    forall g: nat | g < |table| ensures table[g] == OrZero(Last(lines + [line], KeyAt(prefix, g))) {
      LastSnoc(lines, line, KeyAt(prefix, g));
    }
  }

  lemma RawSnoc(raw: map<string, seq<byte>>, lines: seq<string>, line: string)
    requires RawHolds(raw, lines)
    ensures EntryOf(line).None? ==> RawHolds(raw, lines + [line])
    ensures EntryOf(line).Some? ==> RawHolds(raw[EntryOf(line).value.name := EntryOf(line).value.bytes], lines + [line])
  {
    forall name
      ensures Last(lines + [line], Raw(name)) ==
              if Raw(name)(line).Some? then Raw(name)(line) else Last(lines, Raw(name))
    {
      LastSnoc(lines, line, Raw(name));
    }
  }

  /** The tables after a line: only the one it names changes. */
  method ParseTarget(before: KeySet, name: string, bytes: seq<byte>, ghost line: string, ghost lines: seq<string>)
    returns (ks: KeySet)
    requires TablesHold(before, lines)
    requires name != "header_key" && EntryOf(line) == Some(Entry(name, bytes))
    ensures TablesHold(ks, lines + [line]) && ks.headerKey == before.headerKey && ks.raw == before.raw
  {
    var target := TargetOf(name);
    if target.None? {
      NoTarget(before, lines, line);
      ks := before;
    } else {
      ks := ParseTable(before, target.value.0, target.value.1, bytes, line, lines);
    }
  }

  /** A key line for the table `t`. */
  method ParseTable(before: KeySet, t: Table, index: nat, bytes: seq<byte>, ghost line: string,
                    ghost lines: seq<string>)
    returns (ks: KeySet)
    requires TablesHold(before, lines) && TargetOfLine(line) == Some((t, index)) && EntryOf(line).value.bytes == bytes
    ensures TablesHold(ks, lines + [line]) && ks.headerKey == before.headerKey && ks.raw == before.raw
  {
    TargetIs(line, t);
    var table := StoreKey(TableOf(before, t), index, bytes, Prefix(t), lines, line);
    ks := WithTable(before, t, table);
    OthersHold(before, t, table, lines, line);
  }

  /** The named table is replaced, and the others have nothing to do with the line. */
  lemma OthersHold(before: KeySet, t: Table, table: seq<Key>, lines: seq<string>, line: string)
    requires TablesHold(before, lines) && TableHolds(table, Prefix(t), lines + [line])
    requires TargetOfLine(line).Some? && TargetOfLine(line).value.0 == t
    ensures TablesHold(WithTable(before, t, table), lines + [line])
  {
    var ks := WithTable(before, t, table);
    forall u ensures TableHolds(TableOf(ks, u), Prefix(u), lines + [line]) {
      WithTableOf(before, t, table, u);
      TargetIs(line, u);
      if u != t {
        OtherHolds(TableOf(before, u), Prefix(u), lines, line);
      }
    }
  }

  lemma NoTarget(ks: KeySet, lines: seq<string>, line: string)
    requires TablesHold(ks, lines) && TargetOfLine(line).None?
    ensures TablesHold(ks, lines + [line])
  {
    forall t ensures TableHolds(TableOf(ks, t), Prefix(t), lines + [line]) {
      TargetIs(line, t);
      OtherHolds(TableOf(ks, t), Prefix(t), lines, line);
    }
  }

  lemma SameTables(a: KeySet, b: KeySet, lines: seq<string>)
    requires b == a.(headerKey := b.headerKey, raw := b.raw)
    ensures TablesHold(a, lines) ==> TablesHold(b, lines)
  {
    forall t ensures TableOf(b, t) == TableOf(a, t) {
    }
  }

  lemma HeaderSnoc(lines: seq<string>, line: string)
    ensures var e := EntryOf(line);
      Last(lines + [line], HeaderKey()) ==
      if e.Some? && e.value.name == "header_key" && |e.value.bytes| == 32
      then Some(e.value.bytes) else Last(lines, HeaderKey())
  {
    LastSnoc(lines, line, HeaderKey());
  }

  /** One line of the file. */
  method ParseLine(before: KeySet, line: string, ghost lines: seq<string>) returns (ks: KeySet)
    requires Holds(before, lines)
    ensures Holds(ks, lines + [line])
  {
    ks := before;
    HoldsTables(before, lines);
    HeaderSnoc(lines, line);
    RawSnoc(before.raw, lines, line);
    var entry := EntryOf(line);
    if entry.None? {
      NoTarget(before, lines, line);
      TablesHolds(before, lines + [line]);
      return;
    }
    var Entry(name, bytes) := entry.value;
    var tables, headerKey := before, before.headerKey;
    if name == "header_key" {
      NoTarget(before, lines, line);
      if |bytes| == 32 {
        headerKey := Some(bytes);
      }
    } else {
      tables := ParseTarget(before, name, bytes, line, lines);
    }
    ks := tables.(headerKey := headerKey, raw := before.raw[name := bytes]);
    SameTables(tables, ks, lines + [line]);
    TablesHolds(ks, lines + [line]);
  }

  const EMPTY := KeySet(None, [], [], [], [], map[])

  lemma EmptyHolds()
    ensures Holds(EMPTY, [])
  {
    forall t ensures TableHolds(TableOf(EMPTY, t), Prefix(t), []) {
    }
    TablesHolds(EMPTY, []);
  }

  /** A key file as a key set: each key is the last one its lines give. */
  method Parse(text: string) returns (ks: KeySet)
    ensures Holds(ks, Lines(text))
  {
    var lines := Lines(text);
    ks := EMPTY;
    EmptyHolds();
    for k := 0 to |lines|
      invariant Holds(ks, lines[..k])
    {
      assert lines[..k + 1] == lines[..k] + [lines[k]];
      ks := ParseLine(ks, lines[k], lines[..k]);
    }
    assert lines[..|lines|] == lines;
  }

  // -- Lookup ----------------------------------------------------------------------------------

  datatype KeyAreaType = ForApplication | ForSystem | ForOcean

  function FromIndex(index: byte): KeyAreaType {
    match index
    case 0 => ForApplication
    case 1 => ForOcean
    case 2 => ForSystem
    case _ => ForApplication
  }

  function TableFor(t: KeyAreaType): Table {
    match t
    case ForApplication => Application
    case ForSystem => System
    case ForOcean => Ocean
  }

  function KeyAreaKey(ks: KeySet, t: KeyAreaType, generation: nat): Option<Key> {
    var table := TableOf(ks, TableFor(t));
    if generation < |table| then Some(table[generation]) else None
  }

  /** The key the lines leave for an index behind a prefix: it is there just when some line names the index or a later
      one, and then it is the last one given for it, or zeros. */
  ghost function Stored(lines: seq<string>, prefix: string, g: nat): Option<Key> {
    if Reached(lines, prefix, g) then Some(OrZero(Last(lines, KeyAt(prefix, g)))) else None
  }

  /** Looking a key up in a parsed file. */
  lemma KeyLookup(lines: seq<string>, ks: KeySet, generation: nat)
    requires Holds(ks, lines)
    ensures KeyAreaKey(ks, ForApplication, generation) == Stored(lines, "key_area_key_application_", generation)
    ensures KeyAreaKey(ks, ForSystem, generation) == Stored(lines, "key_area_key_system_", generation)
    ensures KeyAreaKey(ks, ForOcean, generation) == Stored(lines, "key_area_key_ocean_", generation)
  {
    AreaTables(ks, generation);
    StoredIn(ks.application, "key_area_key_application_", lines, generation);
    StoredIn(ks.system, "key_area_key_system_", lines, generation);
    StoredIn(ks.ocean, "key_area_key_ocean_", lines, generation);
  }

  function Entered(table: seq<Key>, g: nat): Option<Key> { if g < |table| then Some(table[g]) else None }

  lemma AreaTables(ks: KeySet, g: nat)
    ensures KeyAreaKey(ks, ForApplication, g) == Entered(ks.application, g)
    ensures KeyAreaKey(ks, ForSystem, g) == Entered(ks.system, g)
    ensures KeyAreaKey(ks, ForOcean, g) == Entered(ks.ocean, g)
  {
  }

  lemma StoredIn(table: seq<Key>, prefix: string, lines: seq<string>, g: nat)
    requires TableHolds(table, prefix, lines)
    ensures Stored(lines, prefix, g) == Entered(table, g)
  {
  }

  /** The key an NCA asks for, by index and generation: index 1 means ocean, 2 system, any other application. */
  lemma AreaKey(lines: seq<string>, ks: KeySet, index: byte, generation: nat)
    requires Holds(ks, lines)
    ensures KeyAreaKey(ks, FromIndex(index), generation) ==
            Stored(lines, if index == 1 then "key_area_key_ocean_" else if index == 2 then "key_area_key_system_"
                          else "key_area_key_application_", generation)
  {
    KeyLookup(lines, ks, generation);
  }

  // -- Files as they are written -------------------------------------------------------------------

  /** The line gives the key for an index behind a prefix, and no later line does. */
  ghost predicate LastWritten(lines: seq<string>, k: nat, p: Parts, prefix: string, index: seq<nat>, key: Key) {
    && k < |lines| && lines[k] == LineOf(p) && Proper(p) && Without(p.value, ' ') == EncodeHex(key)
    && index != [] && AreDigits(index, 16) && Number(index, 16) < 0x1_0000_0000_0000_0000
    && Lower(p.name) == prefix + Text(index)
    && forall j :: k < j < |lines| ==> KeyAt(prefix, Number(index, 16))(lines[j]) == None
  }

  lemma WrittenKey(lines: seq<string>, k: nat, p: Parts, prefix: string, index: seq<nat>, key: Key)
    requires LastWritten(lines, k, p, prefix, index, key)
    ensures Stored(lines, prefix, Number(index, 16)) == Some(key)
  {
    WrittenIndex(p, prefix, index, key);
    LastKey(lines, k, prefix, Number(index, 16), key);
  }

  lemma LastKey(lines: seq<string>, k: nat, prefix: string, g: nat, key: Key)
    requires k < |lines| && IndexBehind(lines[k], prefix) == Some(g) && EntryOf(lines[k]).value.bytes == key
    requires forall j :: k < j < |lines| ==> KeyAt(prefix, g)(lines[j]) == None
    ensures Stored(lines, prefix, g) == Some(key)
  {
    assert Reaches(lines[k], prefix, g);
    LastDecides(lines, KeyAt(prefix, g), k);
  }

  lemma WrittenIndex(p: Parts, prefix: string, index: seq<nat>, key: Key)
    requires Proper(p) && Without(p.value, ' ') == EncodeHex(key) && index != [] && AreDigits(index, 16)
    requires Number(index, 16) < 0x1_0000_0000_0000_0000 && Lower(p.name) == prefix + Text(index)
    ensures EntryOf(LineOf(p)) == Some(Entry(Lower(p.name), key))
    ensures IndexBehind(LineOf(p), prefix) == Some(Number(index, 16))
  {
    WrittenEntry(p, key);
    assert (prefix + Text(index))[|prefix|..] == Text(index);
    TextParsed(index, 16, 0x1_0000_0000_0000_0000);
  }

  /** A key written in a file is in its table, under the index it was written with, for each of the four tables. */
  lemma WrittenKeyFound(text: string, ks: KeySet, k: nat, p: Parts, prefix: string, index: seq<nat>, key: Key)
    requires Holds(ks, Lines(text)) && LastWritten(Lines(text), k, p, prefix, index, key)
    ensures var g := Number(index, 16);
      && (prefix == "key_area_key_application_" ==> g < |ks.application| && ks.application[g] == key)
      && (prefix == "key_area_key_system_" ==> g < |ks.system| && ks.system[g] == key)
      && (prefix == "key_area_key_ocean_" ==> g < |ks.ocean| && ks.ocean[g] == key)
      && (prefix == "title_kek_" ==> g < |ks.titleKek| && ks.titleKek[g] == key)
  {
    var g := Number(index, 16);
    WrittenKey(Lines(text), k, p, prefix, index, key);
    StoredInTable(Lines(text), ks, prefix, g);
  }

  lemma StoredInTable(lines: seq<string>, ks: KeySet, prefix: string, g: nat)
    requires Holds(ks, lines)
    ensures prefix == "key_area_key_application_" ==>
      Stored(lines, prefix, g) == Entered(ks.application, g)
    ensures prefix == "key_area_key_system_" ==>
      Stored(lines, prefix, g) == Entered(ks.system, g)
    ensures prefix == "key_area_key_ocean_" ==>
      Stored(lines, prefix, g) == Entered(ks.ocean, g)
    ensures prefix == "title_kek_" ==>
      Stored(lines, prefix, g) == Entered(ks.titleKek, g)
  {
    StoredIn(ks.application, "key_area_key_application_", lines, g);
    StoredIn(ks.system, "key_area_key_system_", lines, g);
    StoredIn(ks.ocean, "key_area_key_ocean_", lines, g);
    StoredIn(ks.titleKek, "title_kek_", lines, g);
  }

  /** The header key is the value of the last header key line, if that has 32 bytes. */
  lemma WrittenHeaderKey(text: string, ks: KeySet, k: nat, p: Parts, key: seq<byte>)
    requires Holds(ks, Lines(text)) && k < |Lines(text)| && Lines(text)[k] == LineOf(p)
    requires Proper(p) && Without(p.value, ' ') == EncodeHex(key) && |key| == 32 && Lower(p.name) == "header_key"
    requires forall j :: k < j < |Lines(text)| ==> HeaderKey()(Lines(text)[j]) == None
    ensures ks.headerKey == Some(key)
  {
    WrittenEntry(p, key);
    LastDecides(Lines(text), HeaderKey(), k);
  }
}
