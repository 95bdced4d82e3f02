/**
 Partition lists as a user writes them for `gpt write`: fields in any order, sizes with units,
 flags, and what `set_gpt_info` makes of them.
 */
module GptFields {
  import opened Machine
  import opened Arithmetic
  import opened Sequences
  import opened NumberText
  import opened NumberRead
  import opened GptText

  // ----- the fields of one partition

  datatype Entry = Pair(key: string, value: string) | Flag(key: string)

  function EntryText(e: Entry): string {
    match e
    case Pair(key, value) => Field(key, value)
    case Flag(key) => key
  }

  predicate Clean(e: Entry) {
    '=' !in e.key && ',' !in EntryText(e) && ';' !in EntryText(e)
  }

  predicate AllClean(entries: seq<Entry>) {
    forall e :: e in entries ==> Clean(e)
  }

  function TokenText(entries: seq<Entry>): string
    requires entries != []
  {
    if |entries| == 1 then EntryText(entries[0]) else EntryText(entries[0]) + ("," + TokenText(entries[1..]))
  }

  /** The value of the first field with that key; a flag of that name hides those behind it. */
  function FirstValue(entries: seq<Entry>, key: string): Option<string> {
    if entries == [] then None
    else if entries[0].key == key then (if entries[0].Pair? then Some(entries[0].value) else None)
    else FirstValue(entries[1..], key)
  }

  lemma EntryCut(e: Entry, asked: string)
    requires Clean(e)
    ensures var pair := CutAt(EntryText(e), '=');
            pair.head == e.key && pair.rest == if e.Pair? then Some(e.value) else None
    ensures '=' !in asked ==> (EntryText(e) == asked <==> e == Flag(asked))
  {
    match e {
      case Pair(key, value) =>
        CutBehind(key, '=', value);
        assert EntryText(e)[|key|] == '=';
      case Flag(key) => CutNowhere(key, '=');
    }
  }

  /** `extract_val` finds the first field with the key, wherever it is in the list. */
  lemma {:induction false} ValueFound(entries: seq<Entry>, asked: string)
    requires entries != [] && AllClean(entries)
    ensures ExtractVal(TokenText(entries), asked) == FirstValue(entries, asked)
    decreases |entries|
  {
    hide EntryText;
    var e := entries[0];
    assert Clean(e);
    EntryCut(e, asked);
    if |entries| == 1 {
      CutNowhere(EntryText(e), ',');
      assert entries[1..] == [];
    } else {
      CutBehind(EntryText(e), ',', TokenText(entries[1..]));
      ValueFound(entries[1..], asked);
    }
  }

  /** `found_key` finds a flag wherever it is, and never a field with a value. */
  lemma {:induction false} FlagFound(entries: seq<Entry>, asked: string)
    requires entries != [] && AllClean(entries) && '=' !in asked
    ensures FoundKey(TokenText(entries), asked) <==> Flag(asked) in entries
    decreases |entries|
  {
    hide EntryText;
    var e := entries[0];
    assert Clean(e);
    EntryCut(e, asked);
    if |entries| == 1 {
      CutNowhere(EntryText(e), ',');
    } else {
      CutBehind(EntryText(e), ',', TokenText(entries[1..]));
      FlagFound(entries[1..], asked);
      assert entries == [e] + entries[1..];
    }
  }

  // ----- amounts

  /** The units of `ustrtoull`. */
  predicate IsAmountUnit(unit: string, scale: nat) {
    || (scale == 1 && unit == "")
    || (scale == 1024 && (unit == "K" || unit == "k" || unit == "Ki" || unit == "ki" || unit == "KiB" || unit == "kiB"))
    || (scale == 1024 * 1024 && (unit == "M" || unit == "Mi" || unit == "MiB"))
    || (scale == 1024 * 1024 * 1024 && (unit == "G" || unit == "Gi" || unit == "GiB"))
  }

  /** Digits, base, unit and how many bytes the unit is. */
  datatype Amount = Amount(number: string, digits: seq<nat>, base: radix, unit: string, scale: nat)

  predicate IsAmount(a: Amount) {
    Writes(a.number, a.digits, a.base) && IsAmountUnit(a.unit, a.scale)
  }

  function AmountText(a: Amount): string {
    a.number + a.unit
  }

  function BytesOf(a: Amount): nat {
    ValueFrom(0, a.digits, a.base) * a.scale
  }

  lemma AmountTaken(a: Amount)
    requires IsAmount(a)
    ensures UStrtoull(AmountText(a)) == BytesOf(a) % TWO_64
  {
    hide ValueFrom, Strtoull, Writes;
    NumberTaken(a.number, a.digits, a.base, a.unit);
    ScaleTurns(ValueFrom(0, a.digits, a.base), a.scale);
  }

  lemma AmountPlain(a: Amount)
    requires IsAmount(a)
    ensures AmountText(a) != "-" && !IsReference(AmountText(a))
  {
    assert IsXDigit(a.number[0]) by {
      if a.base == 10 { DigitRead(a.number[0], a.digits[0]); }
    }
    assert AmountText(a)[0] == a.number[0];
    if |AmountText(a)| >= 2 { assert AmountText(a)[..2][0] == a.number[0]; }
  }

  // ----- references

  /** The text "${x}". */
  function ReferenceTo(x: string): string {
    "${" + x + "}"
  }

  /** A reference to a variable that is set stands for its value, and every other text for itself. */
  ghost predicate Means(env: map<string, string>, text: string, value: string) {
    if x :| x in env && x != "" && text == ReferenceTo(x) then value == env[x] else value == text
  }

  lemma ReferenceShape(x: string)
    requires x != ""
    ensures var s := ReferenceTo(x); IsReference(s) && s[2..|s| - 1] == x
  {
    var s := ReferenceTo(x);
    assert s[..2] == "${" && s[2..|s| - 1] == x;
  }

  lemma ReferenceOf(s: string)
    requires IsReference(s)
    ensures s == ReferenceTo(s[2..|s| - 1]) && s[2..|s| - 1] != ""
  {
    assert s == s[..2] + s[2..|s| - 1] + [s[|s| - 1]];
  }

  lemma Expanded(env: map<string, string>, text: string, value: string)
    ensures Expand(env, text) == value <==> Means(env, text, value)
  {
    if IsReference(text) { ReferenceOf(text); }
    if x :| x in env && x != "" && text == ReferenceTo(x) { ReferenceShape(x); }
  }

  // ----- one partition

  /** What is asked for: no start means the next free block, no size the rest of the disk. */
  datatype Wanted = Wanted(name: string, uuid: string, start: Option<Amount>, size: Option<Amount>, bootable: bool)

  /** The first field with that key is there and means `value`. */
  ghost predicate Gives(env: map<string, string>, entries: seq<Entry>, key: string, value: string) {
    FirstValue(entries, key).Some? && Means(env, FirstValue(entries, key).value, value)
  }

  ghost predicate Describes(env: map<string, string>, entries: seq<Entry>, w: Wanted) {
    && Gives(env, entries, "name", w.name) && Gives(env, entries, "uuid", w.uuid)
    && (if w.start.Some? then Gives(env, entries, "start", AmountText(w.start.value)) else FirstValue(entries, "start").None?)
    && Gives(env, entries, "size", if w.size.Some? then AmountText(w.size.value) else "-")
    && (Flag("bootable") in entries <==> w.bootable)
  }

  /** The texts fit and the amounts are amounts. */
  predicate Possible(w: Wanted) {
    && |w.name| < 32 && |w.uuid| < 37
    && (w.start.Some? ==> IsAmount(w.start.value) && BytesOf(w.start.value) < TWO_64)
    && (w.size.Some? ==> IsAmount(w.size.value) && BytesOf(w.size.value) < TWO_64)
  }

  /** Whole blocks; a missing start or an open size is zero. */
  function BlocksOf(a: Option<Amount>, blksz: u32): nat
    requires blksz > 0
  {
    if a.None? then 0 else BytesOf(a.value) / blksz
  }

  lemma AmountBlocks(a: Amount, blksz: u32)
    requires blksz > 0 && IsAmount(a) && BytesOf(a) < TWO_64
    ensures Blocks(AmountText(a), blksz) == BytesOf(a) / blksz
  {
    hide UStrtoull, BytesOf, IsAmount, AmountText;
    AmountTaken(a);
  }

  lemma BlocksFit(a: Option<Amount>, blksz: u32)
    requires blksz > 0 && (a.Some? ==> IsAmount(a.value) && BytesOf(a.value) < TWO_64)
    ensures BlocksOf(a, blksz) < TWO_64
  {
    hide IsAmount, BytesOf;
    if a.Some? { QuotientAtMost(BytesOf(a.value), blksz); }
  }

  lemma GivenRead(env: map<string, string>, entries: seq<Entry>, key: string, value: string)
    requires entries != [] && AllClean(entries) && Gives(env, entries, key, value)
    ensures var v := ExtractVal(TokenText(entries), key); v.Some? && Expand(env, v.value) == value
  {
    hide ExtractVal, TokenText, FirstValue, Expand, Means;
    ValueFound(entries, key);
    Expanded(env, FirstValue(entries, key).value, value);
  }

  /** A partition in its fields, in any order and with any others between, is read as what was asked for. */
  lemma TokenRead(env: map<string, string>, entries: seq<Entry>, w: Wanted, blksz: u32)
    requires blksz > 0 && entries != [] && AllClean(entries) && Describes(env, entries, w) && Possible(w)
    ensures BlocksOf(w.start, blksz) < TWO_64 && BlocksOf(w.size, blksz) < TWO_64
    ensures ParsePart(env, TokenText(entries), blksz)
            == Ok(Part(BlocksOf(w.start, blksz), BlocksOf(w.size, blksz), w.name, w.uuid, w.bootable))
  {
    hide ExtractVal, FoundKey, TokenText, FirstValue, Blocks, IsAmount, BytesOf, AmountText, AllClean, Expand, Gives;
    GivenRead(env, entries, "name", w.name);
    GivenRead(env, entries, "uuid", w.uuid);
    GivenRead(env, entries, "size", if w.size.Some? then AmountText(w.size.value) else "-");
    ValueFound(entries, "start");
    FlagFound(entries, "bootable");
    BlocksFit(w.start, blksz);
    BlocksFit(w.size, blksz);
    if w.start.Some? {
      GivenRead(env, entries, "start", AmountText(w.start.value));
      AmountBlocks(w.start.value, blksz);
    }
    if w.size.Some? {
      AmountPlain(w.size.value);
      AmountBlocks(w.size.value, blksz);
    }
  }

  /** Without a name, a uuid or a size there is no partition. */
  lemma TokenIncomplete(env: map<string, string>, entries: seq<Entry>, blksz: u32)
    requires blksz > 0 && entries != [] && AllClean(entries)
    requires FirstValue(entries, "name").None? || FirstValue(entries, "uuid").None? || FirstValue(entries, "size").None?
    ensures ParsePart(env, TokenText(entries), blksz) == Err(Incomplete)
  {
    hide ExtractVal, FoundKey, TokenText, FirstValue, Blocks;
    ValueFound(entries, "name");
    ValueFound(entries, "uuid");
    ValueFound(entries, "size");
  }

  /** A name of 32 characters or more and a uuid of 37 or more, references replaced, are refused. */
  lemma TokenTooLong(env: map<string, string>, entries: seq<Entry>, name: string, uuid: string, blksz: u32)
    requires blksz > 0 && entries != [] && AllClean(entries)
    requires Gives(env, entries, "name", name) && Gives(env, entries, "uuid", uuid) && (|name| >= 32 || |uuid| >= 37)
    ensures ParsePart(env, TokenText(entries), blksz) == Err(Incomplete)
  {
    hide ExtractVal, FoundKey, TokenText, FirstValue, Blocks, Expand, Gives;
    GivenRead(env, entries, "name", name);
    GivenRead(env, entries, "uuid", uuid);
  }

  // ----- the whole list

  function Tokens(list: seq<seq<Entry>>): string
    requires list != [] && forall i :: 0 <= i < |list| ==> list[i] != []
  {
    if |list| == 1 then TokenText(list[0]) else TokenText(list[0]) + (";" + Tokens(list[1..]))
  }

  /** Partition `i` of the list is the one wanted. */
  ghost predicate AllDescribe(env: map<string, string>, list: seq<seq<Entry>>, wanted: seq<Wanted>) {
    && |list| == |wanted|
    && forall i :: 0 <= i < |list| ==>
         list[i] != [] && AllClean(list[i]) && Describes(env, list[i], wanted[i]) && Possible(wanted[i])
  }

  lemma {:induction false} TokenPlain(entries: seq<Entry>)
    requires entries != [] && AllClean(entries)
    ensures ';' !in TokenText(entries) && (TokenText(entries) == [] ==> entries == [Flag("")])
    decreases |entries|
  {
    assert Clean(entries[0]);
    if |entries| > 1 {
      TokenPlain(entries[1..]);
    } else {
      assert entries == [entries[0]];
    }
  }

  ghost predicate AllRead(parts: seq<Part>, wanted: seq<Wanted>, blksz: u32)
    requires blksz > 0
  {
    && |parts| == |wanted|
    && forall i :: 0 <= i < |wanted| ==>
         && parts[i].start == BlocksOf(wanted[i].start, blksz) && parts[i].size == BlocksOf(wanted[i].size, blksz)
         && parts[i].name == wanted[i].name && parts[i].uuid == wanted[i].uuid && parts[i].bootable == wanted[i].bootable
  }

  lemma {:induction false} TokensRead(env: map<string, string>, list: seq<seq<Entry>>, wanted: seq<Wanted>, blksz: u32)
    requires blksz > 0 && list != [] && AllDescribe(env, list, wanted)
    ensures var r := ParseParts(env, Tokens(list), blksz); r.Ok? && AllRead(r.value, wanted, blksz)
    decreases |list|
  {
    hide TokenText, ParsePart, AllClean, Describes, Possible, BlocksOf;
    TokenPlain(list[0]);
    TokenRead(env, list[0], wanted[0], blksz);
    if |list| == 1 {
      CutNowhere(TokenText(list[0]), ';');
    } else {
      hide CutAt;
      CutBehind(TokenText(list[0]), ';', Tokens(list[1..]));
      TokensRead(env, list[1..], wanted[1..], blksz);
    }
  }

  lemma {:induction false} TokensEnd(list: seq<seq<Entry>>)
    requires list != [] && forall i :: 0 <= i < |list| ==> list[i] != [] && AllClean(list[i]) && list[i] != [Flag("")]
    ensures Tokens(list) != [] && Tokens(list)[|Tokens(list)| - 1] != ';'
    decreases |list|
  {
    hide TokenText;
    TokenPlain(list[0]);
    if |list| > 1 { TokensEnd(list[1..]); }
  }

  function UserList(guid: string, list: seq<seq<Entry>>, closed: bool): string
    requires list != [] && forall i :: 0 <= i < |list| ==> list[i] != []
  {
    Field("uuid_disk", guid) + (";" + (Tokens(list) + (if closed then ";" else "")))
  }

  lemma NothingNamed()
    ensures FirstValue([Flag("")], "name") == None
  {
    assert [Flag("")][1..] == [];
  }

  lemma DescribedIsNamed(env: map<string, string>, entries: seq<Entry>, w: Wanted)
    requires Describes(env, entries, w)
    ensures entries != [Flag("")]
  {
    hide FirstValue, Means;
    NothingNamed();
  }

  lemma UserListTrimmed(list: seq<seq<Entry>>, closed: bool, max: nat)
    requires list != [] && forall i :: 0 <= i < |list| ==> list[i] != [] && AllClean(list[i]) && list[i] != [Flag("")]
    requires |Tokens(list)| + (if closed then 1 else 0) <= max
    ensures var s := Tokens(list) + (if closed then ";" else ""); s != [] && max > 0 && Trim(s, max) == Tokens(list)
  {
    hide Tokens;
    TokensEnd(list);
    assert Tokens(list) + "" == Tokens(list);
  }

  /** The disk GUID is found in front of the first semicolon. */
  lemma GuidFound(guid: string, tail: string)
    requires ',' !in guid && ';' !in guid
    ensures var disk := ExtractVal(Field("uuid_disk", guid) + (";" + tail), "uuid_disk");
            disk.Some? && CutAt(disk.value, ';').head == guid
  {
    hide ExtractVal, Field;
    var cut := CutAt(tail, ',');
    var value := guid + (";" + cut.head);
    CutBehind(guid, ';', cut.head);
    hide CutAt;
    if cut.rest.Some? {
      GuidApart(guid, cut.head, cut.rest.value);
      NextField("uuid_disk", value, cut.rest.value, "uuid_disk");
    } else {
      GuidAlone(guid, tail);
      LastField("uuid_disk", value, "uuid_disk");
    }
  }

  lemma GuidAlone(guid: string, tail: string)
    ensures Field("uuid_disk", guid) + (";" + tail) == Field("uuid_disk", guid + (";" + tail))
  {
    Associate("uuid_disk=", guid, ";" + tail);
  }

  lemma GuidApart(guid: string, head: string, rest: string)
    ensures Field("uuid_disk", guid) + (";" + (head + [','] + rest)) == Field("uuid_disk", guid + (";" + head)) + ("," + rest)
  {
    Regroup("uuid_disk=" + guid, ";", head, "," + rest);
  }

  /**
   A list that fits, with or without a semicolon at its end, is read as the disk GUID and the
   partitions wanted: whole blocks, names, uuids and flags, whatever the order of the fields and
   whichever values are given as references to variables.
   */
  lemma ListRead(
    env: map<string, string>, text: string, guid: string, list: seq<seq<Entry>>, wanted: seq<Wanted>,
    closed: bool, blksz: u32, max: nat)
    requires blksz > 0 && max > UUID_SIZE && ',' !in text && ';' !in text && Means(env, text, guid)
    requires list != [] && AllDescribe(env, list, wanted) && |Tokens(list)| + (if closed then 1 else 0) <= max
    ensures var r := Parse(env, UserList(text, list, closed), blksz, max);
            r.Ok? && r.value.0 == guid && AllRead(r.value.1, wanted, blksz)
  {
    hide Tokens, ExtractVal, ParseParts, Trim, AllClean, Describes, Possible, Expand, Means;
    forall i | 0 <= i < |list| ensures list[i] != [Flag("")] { DescribedIsNamed(env, list[i], wanted[i]); }
    var tail := Tokens(list) + (if closed then ";" else "");
    UserListTrimmed(list, closed, max);
    GuidFound(text, tail);
    Expanded(env, text, guid);
    CutBehind(Field("uuid_disk", text), ';', tail);
    TokensRead(env, list, wanted, blksz);
  }

  /** Without a disk GUID, without a semicolon behind it, or with nothing behind that, there is an error of its own. */
  lemma ListErrors(env: map<string, string>, text: string, entries: seq<Entry>, blksz: u32, max: nat)
    requires blksz > 0 && max > UUID_SIZE && ',' !in text && ';' !in text
    requires entries != [] && AllClean(entries) && FirstValue(entries, "uuid_disk").None?
    ensures Parse(env, TokenText(entries), blksz, max) == Err(NoGuid)
    ensures Parse(env, Field("uuid_disk", text), blksz, max) == Err(Malformed)
    ensures Parse(env, Field("uuid_disk", text) + (";" + ""), blksz, max) == Err(NoList)
  {
    hide ExtractVal, ParseParts, Trim, FirstValue, TokenText;
    ValueFound(entries, "uuid_disk");
    LastField("uuid_disk", text, "uuid_disk");
    CutNowhere(Field("uuid_disk", text), ';');
    GuidFound(text, "");
    CutBehind(Field("uuid_disk", text), ';', "");
  }
}
