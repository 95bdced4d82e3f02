/** A written partition list is read back exactly when it fits the length the reader looks at. */
module GptRoundTrip {
  import opened Machine
  import opened GptText

  function Unflag(parts: seq<Part>): (r: seq<Part>)
    ensures |r| == |parts| && forall i :: 0 <= i < |r| ==> r[i] == Unflagged(parts[i])
  {
    if parts == [] then [] else [Unflagged(parts[0])] + Unflag(parts[1..])
  }

  predicate AllCarried(env: map<string, string>, parts: seq<Part>, blksz: u32) {
    forall i :: 0 <= i < |parts| ==> Carried(env, parts[i], blksz)
  }

  predicate AllReadable(env: map<string, string>, parts: seq<Part>, blksz: u32) {
    forall i :: 0 <= i < |parts| ==> Readable(env, parts[i], blksz)
  }

  function ReadAll(env: map<string, string>, parts: seq<Part>): (r: seq<Part>)
    ensures |r| == |parts| && forall i :: 0 <= i < |r| ==> r[i] == ReadAs(env, parts[i])
  {
    if parts == [] then [] else [ReadAs(env, parts[0])] + ReadAll(env, parts[1..])
  }

  lemma CarriedReads(env: map<string, string>, parts: seq<Part>, blksz: u32)
    requires blksz > 0 && AllCarried(env, parts, blksz)
    ensures AllReadable(env, parts, blksz) && ReadAll(env, parts) == Unflag(parts)
  {
    forall i | 0 <= i < |parts| ensures Readable(env, parts[i], blksz) && ReadAs(env, parts[i]) == Unflagged(parts[i]) {
      assert Carried(env, parts[i], blksz);
      PartBack(env, parts[i], blksz);
    }
  }

  function Semicolons(s: string): nat {
    if s == [] then 0 else (if s[0] == ';' then 1 else 0) + Semicolons(s[1..])
  }

  lemma {:induction false} SemicolonsConcat(a: string, b: string)
    ensures Semicolons(a + b) == Semicolons(a) + Semicolons(b)
    decreases |a|
  {
    if a == [] {
      assert a + b == b;
    } else {
      assert (a + b)[1..] == a[1..] + b;
      SemicolonsConcat(a[1..], b);
    }
  }

  lemma {:induction false} NoSemicolons(s: string)
    requires ';' !in s
    ensures Semicolons(s) == 0
    decreases |s|
  {
    if s != [] {
      NoSemicolons(s[1..]);
    }
  }

  /** One partition is parsed for each token: the array counted out before the loop is filled exactly. */
  lemma {:induction false} ParsedCount(env: map<string, string>, s: string, blksz: u32)
    requires blksz > 0
    ensures var r := ParseParts(env, s, blksz); r.Ok? ==> |r.value| == Semicolons(s) + 1
    decreases |s|
  {
    hide ParsePart;
    var token := CutAt(s, ';');
    NoSemicolons(token.head);
    if token.rest.Some? {
      SemicolonsConcat(token.head, [';'] + token.rest.value);
      SemicolonsConcat([';'], token.rest.value);
      assert s == token.head + ([';'] + token.rest.value);
      ParsedCount(env, token.rest.value, blksz);
    }
  }

  lemma PartTextPlain(p: Part, blksz: u32)
    requires ';' !in p.name && ';' !in p.uuid
    ensures ';' !in PartText(p, blksz)
  {
    hide HexField;
    HexFieldPlain(p.start, blksz);
    HexFieldPlain(p.size, blksz);
    FieldPlain("start", HexField(p.start, blksz));
    FieldPlain("size", HexField(p.size, blksz));
    FieldPlain("uuid", p.uuid);
    FieldPlain("name", p.name);
  }

  lemma FieldPlain(key: string, value: string)
    requires ';' !in key && ';' !in value
    ensures ';' !in Field(key, value)
  {
  }

  lemma {:induction false} PartsSemicolons(env: map<string, string>, parts: seq<Part>, blksz: u32)
    requires AllCarried(env, parts, blksz)
    ensures Semicolons(PartsText(parts, blksz)) == |parts|
  {
    hide PartText;
    if parts != [] {
      var head := PartText(parts[0], blksz);
      var rest := PartsText(parts[1..], blksz);
      PartTextPlain(parts[0], blksz);
      NoSemicolons(head);
      PartsSemicolons(env, parts[1..], blksz);
      SemicolonsConcat(head, ";" + rest);
      SemicolonsConcat(";", rest);
    }
  }

  /** The first token of a written list is its first partition, the rest is the list of the others. */
  lemma HeadToken(parts: seq<Part>, blksz: u32, s: string) returns (t: string)
    requires parts != [] && PartsText(parts, blksz) == s + ";"
    requires ';' !in parts[0].name && ';' !in parts[0].uuid
    ensures |parts| == 1 ==> CutAt(s, ';') == Cut(PartText(parts[0], blksz), None)
    ensures |parts| > 1 ==> CutAt(s, ';') == Cut(PartText(parts[0], blksz), Some(t))
    ensures |parts| > 1 ==> PartsText(parts[1..], blksz) == t + ";"
  {
    hide PartText;
    var head := PartText(parts[0], blksz);
    var rest := PartsText(parts[1..], blksz);
    PartTextPlain(parts[0], blksz);
    t := [];
    if |parts| == 1 {
      assert rest == [];
      assert head + (";" + rest) == head + ";";
      assert s == (head + ";")[..|s|] == head;
      CutNowhere(s, ';');
    } else {
      LastIsSemicolon(parts[1..], blksz);
      t := rest[..|rest| - 1];
      assert rest == t + ";";
      assert s + ";" == head + (";" + (t + ";"));
      assert s == (s + ";")[..|s|] == head + (";" + t);
      CutBehind(head, ';', t);
    }
  }

  lemma {:induction false} LastIsSemicolon(parts: seq<Part>, blksz: u32)
    requires parts != []
    ensures PartsText(parts, blksz) != [] && PartsText(parts, blksz)[|PartsText(parts, blksz)| - 1] == ';'
  {
    hide PartText;
    if |parts| > 1 {
      LastIsSemicolon(parts[1..], blksz);
    }
  }

  /** Without its last semicolon the list is parsed into the partitions it was written from. */
  lemma {:induction false} PartsBack(env: map<string, string>, parts: seq<Part>, blksz: u32, s: string)
    requires blksz > 0 && parts != [] && AllReadable(env, parts, blksz)
    requires PartsText(parts, blksz) == s + ";"
    ensures ParseParts(env, s, blksz) == Ok(ReadAll(env, parts))
    decreases |parts|
  {
    hide PartText, ParsePart, Expand;
    assert Readable(env, parts[0], blksz);
    var t := HeadToken(parts, blksz, s);
    PartRead(env, parts[0], blksz);
    if |parts| == 1 {
      assert ReadAll(env, parts) == [ReadAs(env, parts[0])];
    } else {
      PartsBack(env, parts[1..], blksz, t);
    }
  }

  /** Where no name holds a semicolon, each partition read is read from the text of one written. */
  lemma {:induction false} ReadOneByOne(env: map<string, string>, parts: seq<Part>, blksz: u32, s: string)
    requires blksz > 0 && parts != [] && PartsText(parts, blksz) == s + ";"
    requires forall i :: 0 <= i < |parts| ==> ';' !in parts[i].name && ';' !in parts[i].uuid
    ensures var r := ParseParts(env, s, blksz);
            r.Ok? ==> |r.value| == |parts|
                      && forall i :: 0 <= i < |parts| ==> ParsePart(env, PartText(parts[i], blksz), blksz) == Ok(r.value[i])
    decreases |parts|
  {
    hide PartText, ParsePart;
    var t := HeadToken(parts, blksz, s);
    if |parts| > 1 { ReadOneByOne(env, parts[1..], blksz, t); }
  }

  /** Up to its first comma, the list is the disk GUID and the name of the first partition, or the front of it. */
  lemma FirstPartition(guid: string, parts: seq<Part>, blksz: u32) returns (name: string, more: string)
    requires parts != []
    ensures ',' !in name
    ensures ListText(guid, parts, blksz) == Field("uuid_disk", guid + (";" + Field("name", name))) + ("," + more)
  {
    hide AfterName;
    var after := AfterName(parts[0], blksz);
    var rest := ";" + PartsText(parts[1..], blksz);
    var cut := CutAt(parts[0].name, ',');
    name := cut.head;
    var tail := if cut.rest.Some? then cut.rest.value + ("," + after) else after;
    if cut.rest.Some? { CutName(cut.head, cut.rest.value, after); }
    assert PartText(parts[0], blksz) == Field("name", name) + ("," + tail);
    more := tail + rest;
    RegroupToken("uuid_disk=", guid, ";", Field("name", name), "," + tail, rest);
    assert ("," + tail) + rest == "," + more;
    assert Field("uuid_disk", guid) == "uuid_disk=" + guid;
    assert Field("uuid_disk", guid + (";" + Field("name", name))) == "uuid_disk=" + (guid + (";" + Field("name", name)));
  }

  lemma RegroupToken(a: string, b: string, c: string, d: string, e: string, f: string)
    ensures (a + b) + (c + ((d + e) + f)) == (a + (b + (c + d))) + (e + f)
  {
  }

  /** The disk GUID is found, though its token runs on into the first partition. */
  lemma DiskGuid(guid: string, parts: seq<Part>, blksz: u32)
    requires parts != [] && ',' !in guid && ';' !in guid
    ensures var disk := ExtractVal(ListText(guid, parts, blksz), "uuid_disk");
      disk.Some? && CutAt(disk.value, ';').head == guid
  {
    hide ListText;
    hide ExtractVal;
    var name, more := FirstPartition(guid, parts, blksz);
    NextField("uuid_disk", guid + (";" + Field("name", name)), more, "uuid_disk");
    CutBehind(guid, ';', Field("name", name));
  }

  lemma ListRest(guid: string, parts: seq<Part>, blksz: u32)
    requires ';' !in guid
    ensures CutAt(ListText(guid, parts, blksz), ';').rest == Some(PartsText(parts, blksz))
  {
    hide PartsText;
    CutBehind(Field("uuid_disk", guid), ';', PartsText(parts, blksz));
  }

  /** Reading a written list comes down to reading its trimmed tail. */
  lemma ParseIsParts(env: map<string, string>, guid: string, parts: seq<Part>, blksz: u32, max: nat)
    requires blksz > 0 && max > UUID_SIZE && parts != [] && Plain(env, guid)
    ensures PartsText(parts, blksz) != []
    ensures var r := ParseParts(env, Trim(PartsText(parts, blksz), max), blksz);
      Parse(env, ListText(guid, parts, blksz), blksz, max) == if r.Ok? then Ok((guid, r.value)) else Err(r.error)
  {
    hide ParseParts;
    hide ListText;
    hide PartsText;
    hide ExtractVal;
    hide Trim;
    LastIsSemicolon(parts, blksz);
    DiskGuid(guid, parts, blksz);
    ListRest(guid, parts, blksz);
  }

  /** A list that fits loses its last semicolon. */
  lemma TrimmedFits(s: string, max: nat)
    requires s != [] && |s| <= max && s[|s| - 1] == ';'
    ensures s == Trim(s, max) + ";"
  {
  }

  /** Any other list keeps a semicolon too many or loses a partition. */
  lemma TrimmedOverlong(s: string, max: nat)
    requires |s| > max > 0 && s[|s| - 1] == ';'
    ensures Semicolons(Trim(s, max)) + 1 != Semicolons(s)
  {
    hide Semicolons;
    if s[max - 1] == ';' {
      assert Semicolons(s) >= Semicolons(s[..max - 1]) + 2 by {
        SplitTwice(s, max - 1);
        TwoSemicolons(s[..max - 1], s[max - 1 + 1..|s| - 1]);
      }
    }
  }

  lemma SplitTwice(s: string, i: nat)
    requires i < |s| - 1 && s[i] == s[|s| - 1] == ';'
    ensures s == s[..i] + (";" + (s[i + 1..|s| - 1] + ";"))
  {
  }

  lemma TwoSemicolons(front: string, middle: string)
    ensures Semicolons(front + (";" + (middle + ";"))) >= Semicolons(front) + 2
  {
    SemicolonsConcat(front, ";" + (middle + ";"));
    SemicolonsConcat(";", middle + ";");
    SemicolonsConcat(middle, ";");
  }

  lemma OverlongLoses(env: map<string, string>, guid: string, parts: seq<Part>, blksz: u32, max: nat)
    requires blksz > 0 && max > UUID_SIZE && parts != [] && AllCarried(env, parts, blksz) && Plain(env, guid)
    requires |PartsText(parts, blksz)| > max
    ensures var r := Parse(env, ListText(guid, parts, blksz), blksz, max); r.Ok? ==> |r.value.1| != |parts|
  {
    hide Parse;
    hide ParseParts;
    hide ListText;
    hide PartsText;
    hide Trim;
    hide Semicolons;
    assert Carried(env, parts[0], blksz);
    ParseIsParts(env, guid, parts, blksz, max);
    LastIsSemicolon(parts, blksz);
    PartsSemicolons(env, parts, blksz);
    TrimmedOverlong(PartsText(parts, blksz), max);
    ParsedCount(env, Trim(PartsText(parts, blksz), max), blksz);
  }

  /** A list that fits is read, partition by partition, with every reference replaced. */
  lemma FittingRead(env: map<string, string>, guid: string, parts: seq<Part>, blksz: u32, max: nat)
    requires blksz > 0 && max > UUID_SIZE && parts != [] && AllReadable(env, parts, blksz) && Plain(env, guid)
    requires |PartsText(parts, blksz)| <= max
    ensures Parse(env, ListText(guid, parts, blksz), blksz, max) == Ok((guid, ReadAll(env, parts)))
  {
    hide Parse, ParseParts, ListText, PartsText, Trim, ReadAll;
    assert Readable(env, parts[0], blksz);
    ParseIsParts(env, guid, parts, blksz, max);
    LastIsSemicolon(parts, blksz);
    TrimmedFits(PartsText(parts, blksz), max);
    PartsBack(env, parts, blksz, Trim(PartsText(parts, blksz), max));
  }

  /** Start, size, name and uuid come back, in order, exactly when the list fits; the bootable flag never does. */
  lemma RoundTrip(env: map<string, string>, guid: string, parts: seq<Part>, blksz: u32, max: nat)
    requires blksz > 0 && max > UUID_SIZE && parts != [] && AllCarried(env, parts, blksz) && Plain(env, guid)
    ensures Parse(env, ListText(guid, parts, blksz), blksz, max) == Ok((guid, Unflag(parts)))
       <==> |PartsText(parts, blksz)| <= max
  {
    hide Parse, ListText, PartsText;
    if |PartsText(parts, blksz)| > max {
      OverlongLoses(env, guid, parts, blksz, max);
    } else {
      CarriedReads(env, parts, blksz);
      FittingRead(env, guid, parts, blksz, max);
    }
  }
}
