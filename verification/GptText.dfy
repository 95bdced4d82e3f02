/** The GPT partition list as text: what `create_gpt_partitions_list` writes and `set_gpt_info` reads. */
module GptText {
  import opened Machine
  import opened Arithmetic
  import opened Sequences
  import opened NumberText

  datatype Part = Part(start: u64, size: u64, name: string, uuid: string, bootable: bool)

  const NAME_SIZE: nat := 32   // bytes of the name field, its NUL included
  const UUID_SIZE: nat := 37

  // ----- writing

  /** `start * blksz` in 64 bits, as `0x%llx`. */
  function HexField(n: u64, blksz: u32): string {
    "0x" + Numeral((n * blksz) % TWO_64, 16)
  }

  function Field(key: string, value: string): string {
    key + ("=" + value)
  }

  function AfterName(p: Part, blksz: u32): string {
    Field("start", HexField(p.start, blksz)) + ("," +
      (Field("size", HexField(p.size, blksz)) + ("," + Field("uuid", p.uuid))))
  }

  function PartText(p: Part, blksz: u32): string {
    Field("name", p.name) + ("," + AfterName(p, blksz))
  }

  function PartsText(parts: seq<Part>, blksz: u32): string {
    if parts == [] then "" else PartText(parts[0], blksz) + (";" + PartsText(parts[1..], blksz))
  }

  function ListText(guid: string, parts: seq<Part>, blksz: u32): string {
    Field("uuid_disk", guid) + (";" + PartsText(parts, blksz))
  }

  // ----- reading

  /** `strsep` with one delimiter: the text before it and, if it occurs, the text behind it. */
  datatype Cut = Cut(head: string, rest: Option<string>)

  function CutAt(s: string, c: char): (r: Cut)
    ensures r.rest.Some? ==> |r.rest.value| < |s| && s == r.head + [c] + r.rest.value
    ensures r.rest.None? ==> r.head == s
    ensures c !in r.head
  {
    if s == [] then Cut([], None)
    else if s[0] == c then Cut([], Some(s[1..]))
    else
      var r := CutAt(s[1..], c);
      Cut([s[0]] + r.head, r.rest)
  }

  /** `extract_val`: the value of the first `key=value` with that key; a key without '=' has none. */
  function ExtractVal(s: string, key: string): Option<string>
    decreases |s|
  {
    var token := CutAt(s, ',');
    var pair := CutAt(token.head, '=');
    if pair.head == key then pair.rest
    else if token.rest.None? then None
    else ExtractVal(token.rest.value, key)
  }

  /** `found_key`: a token that is the key alone. */
  predicate FoundKey(s: string, key: string)
    decreases |s|
  {
    var token := CutAt(s, ',');
    token.head == key || (token.rest.Some? && FoundKey(token.rest.value, key))
  }

  predicate IsReference(s: string) {
    |s| >= 4 && s[..2] == "${" && s[|s| - 1] == '}'
  }

  /** `extract_env`: a value of the form `${name}` stands for an environment variable that is set. */
  function Expand(env: map<string, string>, s: string): string {
    if IsReference(s) && s[2..|s| - 1] in env then env[s[2..|s| - 1]] else s
  }

  function Suffix(c: char): nat {
    if c == 'G' then 0x4000_0000 else if c == 'M' then 0x10_0000 else if c == 'K' || c == 'k' then 0x400 else 1
  }

  /** `ustrtoull` with base 0. */
  function UStrtoull(s: string): u64 {
    var n := Strtoull(s);
    if n.rest == [] then n.value else (n.value * Suffix(n.rest[0])) % TWO_64
  }

  datatype Error = NoGuid | NoList | Malformed | Incomplete
  datatype Result<T> = Ok(value: T) | Err(error: Error)

  /** A byte count as blocks. */
  function Blocks(s: string, blksz: u32): u64
    requires blksz > 0
  {
    Divided(UStrtoull(s), blksz)
  }

  function ParseSize(s: string, blksz: u32): u64
    requires blksz > 0
  {
    if s == "-" then 0 else Blocks(s, blksz)
  }

  /** One token of the partition loop. */
  function ParsePart(env: map<string, string>, tok: string, blksz: u32): Result<Part>
    requires blksz > 0
  {
    var uuid := ExtractVal(tok, "uuid");
    if uuid.None? || |Expand(env, uuid.value)| >= UUID_SIZE then Err(Incomplete)
    else
      var name := ExtractVal(tok, "name");
      if name.None? || |Expand(env, name.value)| >= NAME_SIZE then Err(Incomplete)
      else
        var size := ExtractVal(tok, "size");
        if size.None? then Err(Incomplete)
        else
          var start := ExtractVal(tok, "start");
          Ok(Part(
            if start.None? then 0 else Blocks(Expand(env, start.value), blksz),
            ParseSize(Expand(env, size.value), blksz),
            Expand(env, name.value), Expand(env, uuid.value), FoundKey(tok, "bootable")))
  }

  function ParseParts(env: map<string, string>, s: string, blksz: u32): Result<seq<Part>>
    requires blksz > 0
    decreases |s|
  {
    var token := CutAt(s, ';');
    var first := ParsePart(env, token.head, blksz);
    if first.Err? then Err(first.error)
    else if token.rest.None? then Ok([first.value])
    else
      var more := ParseParts(env, token.rest.value, blksz);
      if more.Err? then more else Ok([first.value] + more.value)
  }

  /** A ';' in the last place `strnlen` sees ends the text there. */
  function Trim(s: string, max: nat): string
    requires s != [] && max > 0
  {
    var i := (if |s| < max then |s| else max) - 1;
    if s[i] == ';' then s[..i] else s
  }

  /** `set_gpt_info`: the disk GUID and the partitions. */
  function Parse(env: map<string, string>, s: string, blksz: u32, max: nat): Result<(string, seq<Part>)>
    requires blksz > 0 && max > UUID_SIZE
  {
    var disk := ExtractVal(s, "uuid_disk");
    var list := CutAt(s, ';').rest;
    if disk.None? then Err(NoGuid)
    else if list.None? then Err(Malformed)
    else if list.value == [] then Err(NoList)
    else
      var parts := ParseParts(env, Trim(list.value, max), blksz);
      if parts.Err? then Err(parts.error)
      else Ok((Expand(env, CutAt(disk.value, ';').head), parts.value))
  }

  // ----- one partition is read back

  /** A text the list can carry: no separator of the list, and no reference to a variable that is set. */
  predicate Plain(env: map<string, string>, s: string) {
    ',' !in s && ';' !in s && !(IsReference(s) && s[2..|s| - 1] in env)
  }

  /** A partition whose fields are told apart when read and are short enough once references are replaced. */
  predicate Readable(env: map<string, string>, p: Part, blksz: u32) {
    Separable(p, blksz) && |Expand(env, p.name)| < NAME_SIZE && |Expand(env, p.uuid)| < UUID_SIZE
  }

  predicate Separable(p: Part, blksz: u32) {
    && ',' !in p.name && ';' !in p.name && ',' !in p.uuid && ';' !in p.uuid
    && p.start * blksz < TWO_64 && p.size * blksz < TWO_64
  }

  /** What is read for it: references replaced, the flag cleared. */
  function ReadAs(env: map<string, string>, p: Part): Part {
    p.(name := Expand(env, p.name), uuid := Expand(env, p.uuid), bootable := false)
  }

  predicate Carried(env: map<string, string>, p: Part, blksz: u32) {
    && Plain(env, p.name) && |p.name| < NAME_SIZE
    && Plain(env, p.uuid) && |p.uuid| < UUID_SIZE
    && p.start * blksz < TWO_64 && p.size * blksz < TWO_64
  }

  lemma {:induction false} CutBehind(head: string, c: char, rest: string)
    requires c !in head
    ensures CutAt(head + ([c] + rest), c) == Cut(head, Some(rest))
    decreases |head|
  {
    var s := head + ([c] + rest);
    if head == [] {
      assert s == [c] + rest && s[1..] == rest;
    } else {
      assert s[1..] == head[1..] + ([c] + rest);
      CutBehind(head[1..], c, rest);
      assert [head[0]] + head[1..] == head;
    }
  }

  lemma {:induction false} CutNowhere(s: string, c: char)
    requires c !in s
    ensures CutAt(s, c) == Cut(s, None)
    decreases |s|
  {
    if s != [] {
      CutNowhere(s[1..], c);
      assert [s[0]] + s[1..] == s;
    }
  }

  /** A field `key=value`, alone or followed by more, and the question for its key or another one. */
  lemma LastField(key: string, value: string, asked: string)
    requires '=' !in key && ',' !in key && ',' !in value
    ensures ExtractVal(Field(key, value), asked) == if asked == key then Some(value) else None
  {
    var field := key + (['='] + value);
    CutNowhere(field, ',');
    CutBehind(key, '=', value);
  }

  lemma NextField(key: string, value: string, rest: string, asked: string)
    requires '=' !in key && ',' !in key && ',' !in value
    ensures ExtractVal(Field(key, value) + ("," + rest), asked)
            == if asked == key then Some(value) else ExtractVal(rest, asked)
  {
    var field := key + (['='] + value);
    assert ',' !in field;
    CutBehind(field, ',', rest);
    CutBehind(key, '=', value);
  }

  lemma NextNotKey(key: string, value: string, rest: string, asked: string)
    requires ',' !in key && ',' !in value && '=' !in asked
    ensures FoundKey(Field(key, value) + ("," + rest), asked) == FoundKey(rest, asked)
  {
    var field := key + (['='] + value);
    assert ',' !in field && field[|key|] == '=';
    CutBehind(field, ',', rest);
  }

  lemma LastNotKey(key: string, value: string, asked: string)
    requires ',' !in key && ',' !in value && '=' !in asked
    ensures !FoundKey(Field(key, value), asked)
  {
    var field := key + (['='] + value);
    assert ',' !in field && field[|key|] == '=';
    CutNowhere(field, ',');
  }

  lemma {:induction false} NumeralPlain(n: nat, base: radix)
    ensures forall c :: c in Numeral(n, base) ==> IsXDigit(c)
    decreases n
  {
    if n < base {
      DigitRoundTrip(n);
    } else {
      NumeralPlain(Quotient(n, base), base);
      DigitRoundTrip(n - Times(Quotient(n, base), base));
    }
  }

  lemma HexDigits(v: u64)
    ensures UStrtoull("0x" + Numeral(v, 16)) == v
  {
    var digits := Numeral(v, 16);
    var s := "0x" + digits;
    NumeralPlain(v, 16);
    assert digits[0] in digits;
    assert s[0] == '0' && s[1] == 'x' && s[2] == digits[0] && s[2..] == digits;
    DigitsOfNumeral(v, 16, []);
    assert digits + [] == digits;
  }

  lemma HexPlain(v: u64)
    ensures var s := "0x" + Numeral(v, 16);
      s != "-" && !IsReference(s) && ',' !in s && ';' !in s
  {
    var s := "0x" + Numeral(v, 16);
    NumeralPlain(v, 16);
    assert s[0] == '0';
    assert |s| >= 2 ==> s[..2][0] == '0';
  }

  lemma HexFieldBack(n: u64, blksz: u32)
    requires blksz > 0 && n * blksz < TWO_64
    ensures Blocks(HexField(n, blksz), blksz) == n
  {
    hide UStrtoull;
    var v: u64 := n * blksz;
    assert v % TWO_64 == v;
    HexDigits(v);
    Divides(n, blksz);
  }

  // ----- the round trip

  /** What each question about a written partition is answered with. */
  lemma PartFields(p: Part, blksz: u32, asked: string)
    requires ',' !in p.name && ',' !in p.uuid
    requires asked == "name" || asked == "start" || asked == "size" || asked == "uuid"
    ensures ExtractVal(PartText(p, blksz), asked) == Some(
      if asked == "name" then p.name
      else if asked == "start" then HexField(p.start, blksz)
      else if asked == "size" then HexField(p.size, blksz)
      else p.uuid)
  {
    hide ExtractVal;
    hide HexField;
    HexFieldPlain(p.start, blksz);
    HexFieldPlain(p.size, blksz);
    var third := Field("uuid", p.uuid);
    var second := Field("size", HexField(p.size, blksz)) + ("," + third);
    NextField("name", p.name, AfterName(p, blksz), asked);
    NextField("start", HexField(p.start, blksz), second, asked);
    NextField("size", HexField(p.size, blksz), third, asked);
    LastField("uuid", p.uuid, asked);
  }

  lemma HexFieldPlain(n: u64, blksz: u32)
    ensures HexField(n, blksz) != "-" && !IsReference(HexField(n, blksz))
    ensures ',' !in HexField(n, blksz) && ';' !in HexField(n, blksz)
  {
    HexPlain((n * blksz) % TWO_64);
  }

  /** The flag is a token of its own, and no token written is one. */
  lemma NeverBootable(p: Part, blksz: u32)
    requires ',' !in p.name && ',' !in p.uuid
    ensures !FoundKey(PartText(p, blksz), "bootable")
  {
    hide FoundKey;
    hide HexField;
    HexFieldPlain(p.start, blksz);
    HexFieldPlain(p.size, blksz);
    var third := Field("uuid", p.uuid);
    var second := Field("size", HexField(p.size, blksz)) + ("," + third);
    NextNotKey("name", p.name, AfterName(p, blksz), "bootable");
    NextNotKey("start", HexField(p.start, blksz), second, "bootable");
    NextNotKey("size", HexField(p.size, blksz), third, "bootable");
    LastNotKey("uuid", p.uuid, "bootable");
  }

  function Unflagged(p: Part): Part {
    p.(bootable := false)
  }

  /** What a written partition is read as, or refused for: a name too long once references are replaced. */
  lemma PartRead(env: map<string, string>, p: Part, blksz: u32)
    requires blksz > 0 && Separable(p, blksz) && |Expand(env, p.uuid)| < UUID_SIZE
    ensures ParsePart(env, PartText(p, blksz), blksz)
         == if |Expand(env, p.name)| < NAME_SIZE then Ok(ReadAs(env, p)) else Err(Incomplete)
  {
    hide ExtractVal;
    hide FoundKey;
    hide HexField;
    hide PartText;
    hide Blocks;
    PartFields(p, blksz, "name");
    PartFields(p, blksz, "start");
    PartFields(p, blksz, "size");
    PartFields(p, blksz, "uuid");
    NeverBootable(p, blksz);
    HexFieldPlain(p.start, blksz);
    HexFieldPlain(p.size, blksz);
    HexFieldBack(p.start, blksz);
    HexFieldBack(p.size, blksz);
  }

  /** In particular one without references comes back but for the flag. */
  lemma PartBack(env: map<string, string>, p: Part, blksz: u32)
    requires blksz > 0 && Carried(env, p, blksz)
    ensures Readable(env, p, blksz) && ReadAs(env, p) == Unflagged(p)
    ensures ParsePart(env, PartText(p, blksz), blksz) == Ok(Unflagged(p))
  {
    PartRead(env, p, blksz);
  }

  /** A comma cuts the name off: whatever else is read, the name is what stands in front of it. */
  lemma CommaCutsName(env: map<string, string>, p: Part, blksz: u32)
    requires blksz > 0 && ',' in p.name
    ensures var r := ParsePart(env, PartText(p, blksz), blksz);
            r.Ok? ==> r.value.name == Expand(env, CutAt(p.name, ',').head)
  {
    hide ExtractVal, AfterName;
    var cut := CutAt(p.name, ',');
    if cut.rest.Some? {
      CutName(cut.head, cut.rest.value, AfterName(p, blksz));
      NextField("name", cut.head, cut.rest.value + ("," + AfterName(p, blksz)), "name");
    }
  }

  lemma CutName(head: string, rest: string, after: string)
    ensures Field("name", head + [','] + rest) + ("," + after) == Field("name", head) + ("," + (rest + ("," + after)))
  {
    var name := "name=";
    assert Field("name", head + [','] + rest) == name + (head + "," + rest) && Field("name", head) == name + head;
    Regroup(name + head, ",", rest, "," + after);
    Regroup(name, head, ",", rest);
  }
}
