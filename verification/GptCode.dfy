/** The loops of `gpt.c`, proved against the functions that say what they compute. */
module GptCode {
  import opened Machine
  import Arithmetic
  import opened Sequences
  import opened NumberText
  import opened GptText
  import opened GptRoundTrip
  import opened GptRename

  /** `strsep` from position `p`: the token ends at `q`, and `more` says that a delimiter stands there. */
  method Strsep(s: string, p: nat, c: char) returns (q: nat, more: bool)
    requires p <= |s|
    ensures p <= q <= |s| && (more ==> q < |s|)
    ensures CutAt(s[p..], c) == Cut(s[p..q], if more then Some(s[q + 1..]) else None)
  {
    q := p;
    while q < |s| && s[q] != c
      invariant p <= q <= |s| && c !in s[p..q]
    {
      q := q + 1;
    }
    more := q < |s|;
    if more {
      assert s[p..] == s[p..q] + ([c] + s[q + 1..]);
      CutBehind(s[p..q], c, s[q + 1..]);
    } else {
      assert s[p..] == s[p..q];
      CutNowhere(s[p..q], c);
    }
  }

  /** `extract_val`. */
  method ReadVal(s: string, key: string) returns (v: Option<string>)
    ensures v == ExtractVal(s, key)
  {
    var p, more := 0, true;
    assert s[0..] == s;
    while more
      invariant p <= |s|
      invariant ExtractVal(s, key) == if more then ExtractVal(s[p..], key) else None
      decreases |s| - p, more
    {
      var q, next := Strsep(s, p, ',');
      var token := s[p..q];
      var e, valued := Strsep(token, 0, '=');
      assert token[0..] == token && token[0..e] == token[..e];
      if token[..e] == key {
        return if valued then Some(token[e + 1..]) else None;
      }
      p, more := if next then q + 1 else q, next;
    }
    v := None;
  }

  /** `found_key`. */
  method HasKey(s: string, key: string) returns (found: bool)
    ensures found == FoundKey(s, key)
  {
    var p, more := 0, true;
    assert s[0..] == s;
    while more
      invariant p <= |s|
      invariant FoundKey(s, key) == (more && FoundKey(s[p..], key))
      decreases |s| - p, more
    {
      var q, next := Strsep(s, p, ',');
      if s[p..q] == key {
        return true;
      }
      p, more := if next then q + 1 else q, next;
    }
    found := false;
  }

  /** The number of partitions the text is taken to hold. */
  method CountParts(s: string) returns (count: nat)
    ensures count == Semicolons(s) + 1
  {
    count := 1;
    var p := 0;
    assert s[0..] == s;
    while p < |s|
      invariant p <= |s| && Semicolons(s) + 1 == count + Semicolons(s[p..])
    {
      if s[p] == ';' {
        count := count + 1;
      }
      assert s[p..][1..] == s[p + 1..];
      p := p + 1;
    }
  }

  /** `ustrtoull`: each suffix multiplies by 1024 once more than the next smaller one. */
  method ReadNumber(s: string) returns (n: u64)
    ensures n == UStrtoull(s)
  {
    var q;
    n, q := ParseStrtoull(s, 0);
    assert s[0..] == s;
    ghost var value := n;
    assert s[q..] == [] <==> q == |s|;
    if q < |s| {
      assert s[q..][0] == s[q];
      ShiftTwice(value);
      ShiftThrice(value);
      if s[q] == 'G' {
        n := Shift10(n);
      }
      if s[q] == 'G' || s[q] == 'M' {
        n := Shift10(n);
      }
      if s[q] == 'G' || s[q] == 'M' || s[q] == 'K' || s[q] == 'k' {
        n := Shift10(n);
      }
      assert n == (value * Suffix(s[q])) % TWO_64;
    }
  }

  method ReadBlocks(s: string, blksz: u32) returns (n: u64)
    requires blksz > 0
    ensures n == Blocks(s, blksz)
  {
    var bytes := ReadNumber(s);
    n := Arithmetic.Divided(bytes, blksz);
  }

  /** `extract_env`, with the value itself where nothing is extracted. */
  method ReadEnv(env: map<string, string>, s: string) returns (r: string)
    ensures r == Expand(env, s)
  {
    r := s;
    if |s| < 4 || s[..2] != "${" || s[|s| - 1] != '}' {
      return;
    }
    var name := s[2..|s| - 1];
    if name in env {
      r := env[name];
    }
  }

  /** The body of the partition loop of `set_gpt_info`. */
  method ReadPart(env: map<string, string>, tok: string, blksz: u32) returns (r: Result<Part>)
    requires blksz > 0
    ensures r == ParsePart(env, tok, blksz)
  {
    hide ExtractVal;
    hide FoundKey;
    hide Blocks;
    hide Expand;
    var val := ReadVal(tok, "uuid");
    if val.None? {
      return Err(Incomplete);
    }
    var uuid := ReadEnv(env, val.value);
    if |uuid| >= UUID_SIZE {
      return Err(Incomplete);
    }
    val := ReadVal(tok, "name");
    if val.None? {
      return Err(Incomplete);
    }
    var name := ReadEnv(env, val.value);
    if |name| >= NAME_SIZE {
      return Err(Incomplete);
    }
    val := ReadVal(tok, "size");
    if val.None? {
      return Err(Incomplete);
    }
    var p := ReadEnv(env, val.value);
    var size: u64 := 0;
    if p != "-" {
      size := ReadBlocks(p, blksz);
    }
    val := ReadVal(tok, "start");
    var start: u64 := 0;
    if val.Some? {
      p := ReadEnv(env, val.value);
      start := ReadBlocks(p, blksz);
    }
    var bootable := HasKey(tok, "bootable");
    r := Ok(Part(start, size, name, uuid, bootable));
  }

  function Prepend(done: seq<Part>, r: Result<seq<Part>>): Result<seq<Part>> {
    if r.Ok? then Ok(done + r.value) else r
  }

  lemma PrependStep(done: seq<Part>, p: Part, r: Result<seq<Part>>)
    ensures Prepend(done, if r.Err? then r else Ok([p] + r.value)) == Prepend(done + [p], r)
  {
    if r.Ok? {
      assert done + ([p] + r.value) == (done + [p]) + r.value;
    }
  }

  lemma PrependNothing(r: Result<seq<Part>>)
    ensures Prepend([], r) == r
  {
    if r.Ok? {
      assert [] + r.value == r.value;
    }
  }

  /** Behind a token there is one semicolon less. */
  lemma TokenCount(s: string)
    ensures var token := CutAt(s, ';');
      Semicolons(s) == if token.rest.Some? then 1 + Semicolons(token.rest.value) else 0
  {
    var token := CutAt(s, ';');
    NoSemicolons(token.head);
    if token.rest.Some? {
      SemicolonsConcat(token.head, [';'] + token.rest.value);
      SemicolonsConcat([';'], token.rest.value);
      assert s == token.head + ([';'] + token.rest.value);
    }
  }

  /** The partition loop: it runs once for each of the partitions counted before it. */
  method ReadParts(env: map<string, string>, s: string, blksz: u32) returns (r: Result<seq<Part>>)
    requires blksz > 0
    ensures r == ParseParts(env, s, blksz)
  {
    hide ParsePart;
    hide Semicolons;
    var count := CountParts(s);
    var parts, i, p, more := [], 0, 0, true;
    assert s[0..] == s;
    PrependNothing(ParseParts(env, s, blksz));
    while i < count
      invariant p <= |s| && i <= count
      invariant more <==> i < count
      invariant more ==> Semicolons(s[p..]) + 1 == count - i
      invariant ParseParts(env, s, blksz) == if more then Prepend(parts, ParseParts(env, s[p..], blksz)) else Ok(parts)
    {
      TokenCount(s[p..]);
      var q, next := Strsep(s, p, ';');
      var one := ReadPart(env, s[p..q], blksz);
      if one.Err? {
        return Err(one.error);
      }
      if next {
        PrependStep(parts, one.value, ParseParts(env, s[q + 1..], blksz));
      }
      parts := parts + [one.value];
      p, more, i := if next then q + 1 else q, next, i + 1;
    }
    r := Ok(parts);
  }

  /** `set_gpt_info`. */
  method SetGptInfo(env: map<string, string>, s: string, blksz: u32, max: nat) returns (r: Result<(string, seq<Part>)>)
    requires blksz > 0 && max > UUID_SIZE
    ensures r == Parse(env, s, blksz, max)
  {
    hide ParseParts, ExtractVal, CutAt, Expand;
    var val := ReadVal(s, "uuid_disk");
    if val.None? {
      return Err(NoGuid);
    }
    var e, _ := Strsep(val.value, 0, ';');
    assert val.value[0..] == val.value && val.value[0..e] == val.value[..e];
    var guid := ReadEnv(env, val.value[..e]);
    var q, more := Strsep(s, 0, ';');
    assert s[0..] == s;
    if !more {
      return Err(Malformed);
    }
    var list := s[q + 1..];
    var length := if |list| < max then |list| else max;
    if length == 0 {
      return Err(NoList);
    }
    if list[length - 1] == ';' {
      list := list[..length - 1];
    }
    var parts := ReadParts(env, list, blksz);
    r := if parts.Err? then Err(parts.error) else Ok((guid, parts.value));
  }

  lemma HeadText(guid: string, rest: string)
    ensures Field("uuid_disk", guid) + (";" + rest) == "uuid_disk=" + guid + ";" + rest
  {
    assert Field("uuid_disk", guid) == "uuid_disk=" + guid;
  }

  /** The fields as they are appended, one after the other. */
  lemma OneText(p: Part, blksz: u32)
    ensures "name=" + p.name + ",start=" + HexField(p.start, blksz) + ",size=" + HexField(p.size, blksz) + ",uuid=" + p.uuid
         == PartText(p, blksz)
  {
    hide HexField;
    var start, size := HexField(p.start, blksz), HexField(p.size, blksz);
    FieldText("name", p.name);
    FieldText("start", start);
    FieldText("size", size);
    FieldText("uuid", p.uuid);
    assert ",start=" == "," + "start=" && ",size=" == "," + "size=" && ",uuid=" == "," + "uuid=";
    FlattenFields("name=" + p.name, ",", "start=", start, "size=", size, "uuid=", p.uuid);
  }

  lemma FieldText(key: string, value: string)
    ensures Field(key, value) == (key + "=") + value
  {
  }

  lemma FlattenFields(a: string, c: string, b1: string, v1: string, b2: string, v2: string, b3: string, v3: string)
    ensures a + (c + b1) + v1 + (c + b2) + v2 + (c + b3) + v3
         == a + (c + ((b1 + v1) + (c + ((b2 + v2) + (c + (b3 + v3))))))
  {
  }

  /** The list `disk_partitions`, with the commands that change names in it. */
  class DiskPartitions {
    var parts: seq<Part>

    /** `get_gpt_info`: every number is asked for, those without a partition are passed over. */
    constructor (slots: seq<Option<Part>>)
      ensures parts == Listed(slots)
    {
      var found: seq<Part> := [];
      var p := 0;
      while p < |slots|
        invariant p <= |slots| && found == Listed(slots[..p])
      {
        assert slots[..p + 1] == slots[..p] + [slots[p]];
        ListedConcat(slots[..p], [slots[p]]);
        if slots[p].Some? {
          found := found + [slots[p].value];
        }
        p := p + 1;
      }
      assert slots[..p] == slots;
      parts := found;
    }

    /** `create_gpt_partitions_list`. */
    method CreateList(guid: string, blksz: u32) returns (list: string)
      ensures list == ListText(guid, parts, blksz)
    {
      hide HexField;
      hide PartText;
      list := "uuid_disk=" + guid + ";";
      HeadText(guid, PartsText(parts, blksz));
      var i := 0;
      assert parts[0..] == parts;
      while i < |parts|
        invariant i <= |parts| && ListText(guid, parts, blksz) == list + PartsText(parts[i..], blksz)
      {
        var curr := parts[i];
        var one := "name=" + curr.name + ",start=" + HexField(curr.start, blksz)
          + ",size=" + HexField(curr.size, blksz) + ",uuid=" + curr.uuid;
        OneText(curr, blksz);
        assert parts[i..][0] == curr && parts[i..][1..] == parts[i + 1..];
        Regroup(list, one, ";", PartsText(parts[i + 1..], blksz));
        list := list + one + ";";
        i := i + 1;
      }
      assert parts[i..] == [];
    }

    /** The swap loop with its two counters. */
    method SwapLoop(a: string, b: string) returns (first: nat, second: nat)
      modifies this
      ensures parts == SwapNames(old(parts), a, b)
      ensures first == Named(old(parts), a) && second == if a == b then 0 else Named(old(parts), b)
    {
      ghost var all := parts;
      var i := 0;
      first, second := 0, 0;
      assert all[0..] == all;
      while i < |parts|
        invariant i <= |parts| == |all|
        invariant forall j :: 0 <= j < i ==> parts[j] == all[j].(name := SwapName(all[j].name, a, b))
        invariant forall j :: i <= j < |all| ==> parts[j] == all[j]
        invariant first + Named(all[i..], a) == Named(all, a)
        invariant a != b ==> second + Named(all[i..], b) == Named(all, b)
        invariant a == b ==> second == 0
      {
        assert all[i..][0] == all[i] && all[i..][1..] == all[i + 1..];
        if parts[i].name == a {
          parts := parts[i := parts[i].(name := b)];
          first := first + 1;
        } else if parts[i].name == b {
          parts := parts[i := parts[i].(name := a)];
          second := second + 1;
        }
        i := i + 1;
      }
      assert all[i..] == [];
      assert parts == SwapNames(all, a, b);
    }

    /** The rename loop: it counts from 1 and stops behind the entry it renames. */
    method RenameLoop(number: int, name: string)
      requires number >= 0
      modifies this
      ensures parts == RenameAt(old(parts), number, name)
    {
      var i, pos := 1, 0;
      while pos < |parts|
        invariant pos <= |parts| && i == pos + 1 && parts == old(parts)
        invariant number == 0 || number >= i
      {
        if i == number {
          parts := parts[pos := parts[pos].(name := name)];
          return;
        }
        i, pos := i + 1, pos + 1;
      }
    }

    /** `gpt swap`, up to the table given to `gpt_restore`. */
    method SwapCommand(env: map<string, string>, guid: string, blksz: u32, max: nat, a: string, b: string) returns (r: Outcome)
      requires blksz > 0 && max > UUID_SIZE
      modifies this
      ensures r == Swap(env, guid, old(parts), blksz, max, a, b)
      ensures r.Restored? ==> parts == SwapNames(old(parts), a, b)
    {
      hide Parse;
      hide ListText;
      var list := CreateList(guid, blksz);
      var info := SetGptInfo(env, list, blksz, max);
      if info.Err? {
        return Refused(Unparsed(info.error));
      }
      if |a| > NAME_SIZE || |b| > NAME_SIZE {
        return Refused(NameTooLong);
      }
      var first, second := SwapLoop(a, b);
      if first + second < 2 || first != second {
        return Refused(NotInPairs);
      }
      list := CreateList(guid, blksz);
      info := SetGptInfo(env, list, blksz, max);
      r := if info.Err? then Refused(Unparsed(info.error)) else Restored(info.value.1);
    }

    /** `gpt rename` on a device with the partitions `slots`, which the list was read from. */
    method RenameCommand(env: map<string, string>, guid: string, slots: seq<Option<Part>>, blksz: u32, max: nat,
                         number: int, name: string) returns (r: Outcome)
      requires blksz > 0 && max > UUID_SIZE && parts == Listed(slots)
      modifies this
      ensures r == Rename(env, guid, slots, blksz, max, number, name)
      ensures r.Restored? ==> parts == RenameAt(Listed(slots), number, name)
    {
      hide Parse;
      hide ListText;
      var list := CreateList(guid, blksz);
      var info := SetGptInfo(env, list, blksz, max);
      if info.Err? {
        return Refused(Unparsed(info.error));
      }
      if |name| > NAME_SIZE {
        return Refused(NameTooLong);
      }
      if number < 0 || number > |parts| {
        return Refused(IllegalNumber);
      }
      if number == 0 || slots[number - 1].None? {
        return Refused(NoPartition);
      }
      RenameLoop(number, name);
      list := CreateList(guid, blksz);
      info := SetGptInfo(env, list, blksz, max);
      r := if info.Err? then Refused(Unparsed(info.error)) else Restored(info.value.1);
    }
  }
}
