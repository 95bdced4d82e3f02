/** `gpt swap` and `gpt rename`: what the commands hand to `gpt_restore`. */
module GptRename {
  import opened Machine
  import opened Sequences
  import opened GptText
  import opened GptRoundTrip

  datatype Refusal = Unparsed(error: Error) | NameTooLong | NotInPairs | IllegalNumber | NoPartition
  datatype Outcome = Restored(parts: seq<Part>) | Refused(why: Refusal)

  // ----- swap

  function SwapName(n: string, a: string, b: string): string {
    if n == a then b else if n == b then a else n
  }

  function SwapNames(parts: seq<Part>, a: string, b: string): (r: seq<Part>)
    ensures |r| == |parts|
    ensures forall i :: 0 <= i < |r| ==> r[i] == parts[i].(name := SwapName(parts[i].name, a, b))
  {
    if parts == [] then []
    else [parts[0].(name := SwapName(parts[0].name, a, b))] + SwapNames(parts[1..], a, b)
  }

  function Named(parts: seq<Part>, a: string): nat {
    if parts == [] then 0 else (if parts[0].name == a then 1 else 0) + Named(parts[1..], a)
  }

  /** The two counters of the swap loop. */
  predicate InPairs(first: nat, second: nat) {
    first + second >= 2 && first == second
  }

  function Swap(env: map<string, string>, guid: string, parts: seq<Part>, blksz: u32, max: nat, a: string, b: string): Outcome
    requires blksz > 0 && max > UUID_SIZE
  {
    var before := Parse(env, ListText(guid, parts, blksz), blksz, max);
    if before.Err? then Refused(Unparsed(before.error))
    else if |a| > NAME_SIZE || |b| > NAME_SIZE then Refused(NameTooLong)
    else if !InPairs(Named(parts, a), if a == b then 0 else Named(parts, b)) then Refused(NotInPairs)
    else
      var after := Parse(env, ListText(guid, SwapNames(parts, a, b), blksz), blksz, max);
      if after.Err? then Refused(Unparsed(after.error)) else Restored(after.value.1)
  }

  // ----- rename

  /** `get_gpt_info`: the partitions present, in the order of their numbers. */
  function Listed(slots: seq<Option<Part>>): (r: seq<Part>)
    ensures |r| <= |slots|
  {
    if slots == [] then []
    else (if slots[0].Some? then [slots[0].value] else []) + Listed(slots[1..])
  }

  function RenameAt(parts: seq<Part>, k: int, name: string): seq<Part> {
    if 1 <= k <= |parts| then parts[k - 1 := parts[k - 1].(name := name)] else parts
  }

  function Rename(env: map<string, string>, guid: string, slots: seq<Option<Part>>, blksz: u32, max: nat, k: int, name: string): Outcome
    requires blksz > 0 && max > UUID_SIZE
  {
    var parts := Listed(slots);
    var before := Parse(env, ListText(guid, parts, blksz), blksz, max);
    if before.Err? then Refused(Unparsed(before.error))
    else if |name| > NAME_SIZE then Refused(NameTooLong)
    else if k < 0 || k > |parts| then Refused(IllegalNumber)
    else if k == 0 || slots[k - 1].None? then Refused(NoPartition)
    else
      var after := Parse(env, ListText(guid, RenameAt(parts, k, name), blksz), blksz, max);
      if after.Err? then Refused(Unparsed(after.error)) else Restored(after.value.1)
  }

  // ----- what swap hands over

  ghost predicate OnlyNamesDiffer(p: seq<Part>, q: seq<Part>) {
    |p| == |q| && forall i :: 0 <= i < |p| ==> q[i] == p[i].(name := q[i].name)
  }

  predicate NoneBootable(parts: seq<Part>) {
    forall i :: 0 <= i < |parts| ==> !parts[i].bootable
  }

  lemma {:induction false} NamedOccurs(parts: seq<Part>, a: string) returns (i: nat)
    requires Named(parts, a) > 0
    ensures i < |parts| && parts[i].name == a
  {
    if parts[0].name == a {
      i := 0;
    } else {
      i := NamedOccurs(parts[1..], a);
      i := i + 1;
    }
  }

  lemma {:induction false} NamedSwapped(parts: seq<Part>, a: string, b: string)
    ensures Named(SwapNames(parts, a, b), b) == Named(parts, a)
    ensures Named(SwapNames(parts, a, b), a) == Named(parts, b)
  {
    if parts != [] {
      var swapped := SwapNames(parts, a, b);
      assert swapped[1..] == SwapNames(parts[1..], a, b);
      NamedSwapped(parts[1..], a, b);
    }
  }

  /** Swapping in pairs keeps every name carried and the list as long as it was. */
  lemma SwapCarried(env: map<string, string>, parts: seq<Part>, blksz: u32, a: string, b: string)
    requires AllCarried(env, parts, blksz) && Named(parts, a) > 0 && Named(parts, b) > 0
    ensures AllCarried(env, SwapNames(parts, a, b), blksz)
  {
    var i := NamedOccurs(parts, a);
    var j := NamedOccurs(parts, b);
    var swapped := SwapNames(parts, a, b);
    forall k | 0 <= k < |swapped| ensures Carried(env, swapped[k], blksz) {
      assert Carried(env, parts[k], blksz) && Carried(env, parts[i], blksz) && Carried(env, parts[j], blksz);
    }
  }

  lemma OneMore(k: int, d: int)
    ensures (k + 1) * d == k * d + d
    ensures (k - 1) * d == k * d - d
  {
  }

  function TextLength(parts: seq<Part>, blksz: u32): nat {
    |PartsText(parts, blksz)|
  }

  lemma RenamedLength(p: Part, name: string, blksz: u32)
    ensures |PartText(p.(name := name), blksz)| == |PartText(p, blksz)| + |name| - |p.name|
  {
    hide HexField;
    assert AfterName(p.(name := name), blksz) == AfterName(p, blksz);
  }

  lemma {:induction false} SwappedLength(parts: seq<Part>, blksz: u32, a: string, b: string)
    requires a != b
    ensures TextLength(SwapNames(parts, a, b), blksz)
         == TextLength(parts, blksz) + (Named(parts, a) - Named(parts, b)) * (|b| - |a|)
  {
    hide PartText;
    if parts != [] {
      var swapped := SwapNames(parts, a, b);
      assert swapped[1..] == SwapNames(parts[1..], a, b);
      RenamedLength(parts[0], swapped[0].name, blksz);
      SwappedLength(parts[1..], blksz, a, b);
      OneMore(Named(parts[1..], a) - Named(parts[1..], b), |b| - |a|);
    }
  }

  lemma BalancedLength(parts: seq<Part>, blksz: u32, a: string, b: string)
    requires a != b && Named(parts, a) == Named(parts, b)
    ensures TextLength(SwapNames(parts, a, b), blksz) == TextLength(parts, blksz)
  {
    hide TextLength;
    hide SwapNames;
    hide Named;
    SwappedLength(parts, blksz, a, b);
    assert 0 * (|b| - |a|) == 0;
  }

  /** Swap succeeds exactly on names of allowed length that occur equally often; it then exchanges them everywhere. */
  lemma SwapExact(env: map<string, string>, guid: string, parts: seq<Part>, blksz: u32, max: nat, a: string, b: string)
    requires blksz > 0 && max > UUID_SIZE && parts != [] && AllCarried(env, parts, blksz) && Plain(env, guid)
    requires TextLength(parts, blksz) <= max
    ensures var swaps := a != b && Named(parts, a) == Named(parts, b) > 0;
      Swap(env, guid, parts, blksz, max, a, b)
        == if |a| > NAME_SIZE || |b| > NAME_SIZE then Refused(NameTooLong)
           else if swaps then Restored(Unflag(SwapNames(parts, a, b)))
           else Refused(NotInPairs)
  {
    hide Parse;
    hide ListText;
    hide PartsText;
    RoundTrip(env, guid, parts, blksz, max);
    if a != b && Named(parts, a) == Named(parts, b) > 0 {
      SwapCarried(env, parts, blksz, a, b);
      BalancedLength(parts, blksz, a, b);
      RoundTrip(env, guid, SwapNames(parts, a, b), blksz, max);
    }
  }

  lemma {:induction false} UnflaggedText(parts: seq<Part>, blksz: u32)
    ensures PartsText(Unflag(parts), blksz) == PartsText(parts, blksz)
  {
    hide HexField;
    if parts != [] {
      assert Unflag(parts)[1..] == Unflag(parts[1..]);
      UnflaggedText(parts[1..], blksz);
    }
  }

  lemma {:induction false} UnflaggedNames(parts: seq<Part>, a: string)
    ensures Named(Unflag(parts), a) == Named(parts, a)
  {
    if parts != [] {
      assert Unflag(parts)[1..] == Unflag(parts[1..]);
      UnflaggedNames(parts[1..], a);
    }
  }

  lemma UnflaggedCarried(env: map<string, string>, parts: seq<Part>, blksz: u32)
    requires AllCarried(env, parts, blksz)
    ensures AllCarried(env, Unflag(parts), blksz)
  {
    forall i | 0 <= i < |parts| ensures Carried(env, Unflag(parts)[i], blksz) {
      assert Carried(env, parts[i], blksz);
    }
  }

  lemma SwapTwiceNames(parts: seq<Part>, a: string, b: string)
    ensures Unflag(SwapNames(Unflag(SwapNames(parts, a, b)), a, b)) == Unflag(parts)
  {
  }

  /** The command given twice restores the table it started from, but for the bootable flags. */
  lemma SwapTwice(env: map<string, string>, guid: string, parts: seq<Part>, blksz: u32, max: nat, a: string, b: string)
    requires blksz > 0 && max > UUID_SIZE && parts != [] && AllCarried(env, parts, blksz) && Plain(env, guid)
    requires TextLength(parts, blksz) <= max
    ensures var once := Swap(env, guid, parts, blksz, max, a, b);
      once.Restored? ==> Swap(env, guid, once.parts, blksz, max, a, b) == Restored(Unflag(parts))
  {
    hide Swap;
    hide PartsText;
    SwapExact(env, guid, parts, blksz, max, a, b);
    if Swap(env, guid, parts, blksz, max, a, b).Restored? {
      var swapped := SwapNames(parts, a, b);
      SwapCarried(env, parts, blksz, a, b);
      BalancedLength(parts, blksz, a, b);
      UnflaggedText(swapped, blksz);
      NamedSwapped(parts, a, b);
      UnflaggedNames(swapped, a);
      UnflaggedNames(swapped, b);
      UnflaggedCarried(env, swapped, blksz);
      SwapExact(env, guid, Unflag(swapped), blksz, max, a, b);
      SwapTwiceNames(parts, a, b);
    }
  }

  /** The table handed over differs from the old one only in names exactly when no partition was bootable. */
  lemma OnlyNames(parts: seq<Part>, renamed: seq<Part>)
    requires OnlyNamesDiffer(parts, renamed)
    ensures OnlyNamesDiffer(parts, Unflag(renamed)) <==> NoneBootable(parts)
  {
    var q := Unflag(renamed);
    forall i | 0 <= i < |parts| ensures q[i] == renamed[i].(bootable := false) && renamed[i].bootable == parts[i].bootable {
    }
    if OnlyNamesDiffer(parts, q) {
      forall i | 0 <= i < |parts| ensures !parts[i].bootable {
        assert q[i] == parts[i].(name := q[i].name);
      }
    }
  }

  lemma SwapHandsOver(env: map<string, string>, guid: string, parts: seq<Part>, blksz: u32, max: nat, a: string, b: string)
    requires blksz > 0 && max > UUID_SIZE && parts != [] && AllCarried(env, parts, blksz) && Plain(env, guid)
    requires TextLength(parts, blksz) <= max
    ensures var r := Swap(env, guid, parts, blksz, max, a, b);
      r.Restored? ==> (OnlyNamesDiffer(parts, r.parts) <==> NoneBootable(parts))
  {
    hide Swap;
    SwapExact(env, guid, parts, blksz, max, a, b);
    OnlyNames(parts, SwapNames(parts, a, b));
  }

  // ----- what rename hands over

  /** The name is told apart from what is around it when it is read. */
  predicate Unseparated(name: string) {
    ',' !in name && ';' !in name
  }

  lemma RenamedReads(env: map<string, string>, parts: seq<Part>, blksz: u32, k: nat, name: string)
    requires blksz > 0 && AllCarried(env, parts, blksz) && 1 <= k <= |parts| && Unseparated(name) && |Expand(env, name)| < NAME_SIZE
    ensures AllReadable(env, RenameAt(parts, k, name), blksz)
    ensures ReadAll(env, RenameAt(parts, k, name)) == Unflag(RenameAt(parts, k, Expand(env, name)))
  {
    var renamed := RenameAt(parts, k, name);
    forall i | 0 <= i < |renamed|
      ensures Readable(env, renamed[i], blksz) && ReadAs(env, renamed[i]) == Unflagged(RenameAt(parts, k, Expand(env, name))[i])
    {
      assert Carried(env, parts[i], blksz);
      PartBack(env, parts[i], blksz);
    }
  }

  lemma {:induction false} RefusedInside(env: map<string, string>, parts: seq<Part>, blksz: u32, k: nat, s: string)
    requires blksz > 0 && 1 <= k <= |parts| && PartsText(parts, blksz) == s + ";"
    requires forall i :: 0 <= i < |parts| && i != k - 1 ==> Carried(env, parts[i], blksz)
    requires Separable(parts[k - 1], blksz) && |Expand(env, parts[k - 1].uuid)| < UUID_SIZE
    requires |Expand(env, parts[k - 1].name)| >= NAME_SIZE
    ensures ParseParts(env, s, blksz) == Err(Incomplete)
    decreases |parts|
  {
    hide PartText, ParsePart, Expand;
    var t := HeadToken(parts, blksz, s);
    if k == 1 {
      PartRead(env, parts[0], blksz);
    } else {
      PartBack(env, parts[0], blksz);
      RefusedInside(env, parts[1..], blksz, k - 1, t);
    }
  }

  lemma LongNameFails(env: map<string, string>, guid: string, parts: seq<Part>, blksz: u32, max: nat, k: nat, name: string)
    requires blksz > 0 && max > UUID_SIZE && AllCarried(env, parts, blksz) && Plain(env, guid)
    requires 1 <= k <= |parts| && Unseparated(name) && |Expand(env, name)| >= NAME_SIZE
    requires TextLength(RenameAt(parts, k, name), blksz) <= max
    ensures Parse(env, ListText(guid, RenameAt(parts, k, name), blksz), blksz, max) == Err(Incomplete)
  {
    hide Parse, ParseParts, PartsText, Trim, Expand;
    var renamed := RenameAt(parts, k, name);
    var s := PartsText(renamed, blksz);
    assert Carried(env, parts[0], blksz) && Carried(env, parts[k - 1], blksz);
    PartBack(env, parts[k - 1], blksz);
    ParseIsParts(env, guid, renamed, blksz, max);
    LastIsSemicolon(renamed, blksz);
    TrimmedFits(s, max);
    RefusedInside(env, renamed, blksz, k, Trim(s, max));
  }

  /**
   Rename changes the one name, at place `number` of the list, and drops the bootable flags.  A
   reference to a variable that is set becomes its value; a name that is too long then, one of
   just `PART_NAME_LEN` characters included, passes the check of the command and is refused by
   the reader.
   */
  lemma RenameExact(env: map<string, string>, guid: string, slots: seq<Option<Part>>, blksz: u32, max: nat,
                    number: int, name: string)
    requires blksz > 0 && max > UUID_SIZE && Listed(slots) != [] && AllCarried(env, Listed(slots), blksz) && Plain(env, guid)
    requires Unseparated(name)
    requires TextLength(Listed(slots), blksz) <= max && TextLength(RenameAt(Listed(slots), number, name), blksz) <= max
    ensures Rename(env, guid, slots, blksz, max, number, name)
        == if |name| > NAME_SIZE then Refused(NameTooLong)
           else if number < 0 || number > |Listed(slots)| then Refused(IllegalNumber)
           else if number == 0 || slots[number - 1].None? then Refused(NoPartition)
           else if |Expand(env, name)| >= NAME_SIZE then Refused(Unparsed(Incomplete))
           else Restored(Unflag(RenameAt(Listed(slots), number, Expand(env, name))))
  {
    hide Parse, ListText, PartsText, Expand;
    var parts := Listed(slots);
    RoundTrip(env, guid, parts, blksz, max);
    if 1 <= number <= |parts| {
      if |Expand(env, name)| < NAME_SIZE {
        RenamedReads(env, parts, blksz, number, name);
        FittingRead(env, guid, RenameAt(parts, number, name), blksz, max);
      } else {
        LongNameFails(env, guid, parts, blksz, max, number, name);
      }
    }
  }

  lemma RenameHandsOver(env: map<string, string>, guid: string, slots: seq<Option<Part>>, blksz: u32, max: nat,
                        number: int, name: string)
    requires blksz > 0 && max > UUID_SIZE && Listed(slots) != [] && AllCarried(env, Listed(slots), blksz) && Plain(env, guid)
    requires Unseparated(name)
    requires TextLength(Listed(slots), blksz) <= max && TextLength(RenameAt(Listed(slots), number, name), blksz) <= max
    ensures var r := Rename(env, guid, slots, blksz, max, number, name);
      r.Restored? ==> (OnlyNamesDiffer(Listed(slots), r.parts) <==> NoneBootable(Listed(slots)))
  {
    hide Rename, TextLength, Listed, Unflag, Expand;
    RenameExact(env, guid, slots, blksz, max, number, name);
    OnlyNames(Listed(slots), RenameAt(Listed(slots), number, Expand(env, name)));
  }

  lemma {:induction false} PartsTextSemicolons(parts: seq<Part>, blksz: u32)
    requires forall i :: 0 <= i < |parts| ==> ';' !in parts[i].uuid
    ensures Semicolons(PartsText(parts, blksz)) == |parts| + NameSemicolons(parts)
  {
    hide PartText;
    if parts != [] {
      var head := PartText(parts[0], blksz);
      var rest := PartsText(parts[1..], blksz);
      PartTextSemicolons(parts[0], blksz);
      PartsTextSemicolons(parts[1..], blksz);
      SemicolonsConcat(head, ";" + rest);
      SemicolonsConcat(";", rest);
    }
  }

  function NameSemicolons(parts: seq<Part>): nat {
    if parts == [] then 0 else Semicolons(parts[0].name) + NameSemicolons(parts[1..])
  }

  lemma PartTextSemicolons(p: Part, blksz: u32)
    requires ';' !in p.uuid
    ensures Semicolons(PartText(p, blksz)) == Semicolons(p.name)
  {
    hide HexField;
    var after := "," + AfterName(p, blksz);
    HexFieldPlain(p.start, blksz);
    HexFieldPlain(p.size, blksz);
    FieldPlain("start", HexField(p.start, blksz));
    FieldPlain("size", HexField(p.size, blksz));
    FieldPlain("uuid", p.uuid);
    assert ';' !in after;
    NoSemicolons(after);
    SemicolonsConcat(Field("name", p.name), after);
    assert Field("name", p.name) == "name=" + p.name;
    SemicolonsConcat("name=", p.name);
    NoSemicolons("name=");
  }

  /** Every semicolon in a name adds a partition to a list that is read at all: such a name never comes back. */
  lemma SemicolonAddsPartition(env: map<string, string>, guid: string, parts: seq<Part>, blksz: u32, max: nat)
    requires blksz > 0 && max > UUID_SIZE && parts != [] && Plain(env, guid)
    requires forall i :: 0 <= i < |parts| ==> ';' !in parts[i].uuid
    requires TextLength(parts, blksz) <= max
    ensures var r := Parse(env, ListText(guid, parts, blksz), blksz, max);
            r.Ok? ==> |r.value.1| == |parts| + NameSemicolons(parts)
  {
    hide Parse, ParseParts, ListText, PartsText, Trim, Semicolons;
    var s := PartsText(parts, blksz);
    ParseIsParts(env, guid, parts, blksz, max);
    LastIsSemicolon(parts, blksz);
    TrimmedFits(s, max);
    PartsTextSemicolons(parts, blksz);
    ParsedCount(env, Trim(s, max), blksz);
    SemicolonsConcat(Trim(s, max), ";");
    assert Semicolons(";") == 1 by { OneSemicolon(); }
  }

  lemma OneSemicolon()
    ensures Semicolons(";") == 1
  {
  }

  lemma {:induction false} OnlyNewSemicolons(env: map<string, string>, parts: seq<Part>, blksz: u32, k: nat, name: string)
    requires AllCarried(env, parts, blksz) && 1 <= k <= |parts|
    ensures NameSemicolons(RenameAt(parts, k, name)) == Semicolons(name)
    decreases |parts|
  {
    assert Carried(env, parts[0], blksz);
    NoSemicolons(parts[0].name);
    var renamed := RenameAt(parts, k, name);
    if k == 1 {
      assert renamed[1..] == parts[1..];
      NoneInNames(env, parts[1..], blksz);
    } else {
      assert renamed[1..] == RenameAt(parts[1..], k - 1, name);
      OnlyNewSemicolons(env, parts[1..], blksz, k - 1, name);
    }
  }

  lemma {:induction false} NoneInNames(env: map<string, string>, parts: seq<Part>, blksz: u32)
    requires AllCarried(env, parts, blksz)
    ensures NameSemicolons(parts) == 0
  {
    if parts != [] {
      assert Carried(env, parts[0], blksz);
      NoSemicolons(parts[0].name);
      NoneInNames(env, parts[1..], blksz);
    }
  }

  lemma {:induction false} SomeSemicolons(s: string)
    requires ';' in s
    ensures Semicolons(s) > 0
    decreases |s|
  {
    if s[0] != ';' { SomeSemicolons(s[1..]); }
  }

  lemma ReadAfterComma(env: map<string, string>, guid: string, parts: seq<Part>, blksz: u32, max: nat, k: nat)
    requires blksz > 0 && max > UUID_SIZE && 1 <= k <= |parts| && Plain(env, guid) && TextLength(parts, blksz) <= max
    requires forall i :: 0 <= i < |parts| ==> ';' !in parts[i].name && ';' !in parts[i].uuid
    requires ',' in parts[k - 1].name
    ensures var r := Parse(env, ListText(guid, parts, blksz), blksz, max);
            r.Ok? ==> |r.value.1| == |parts| && r.value.1[k - 1].name == Expand(env, CutAt(parts[k - 1].name, ',').head)
  {
    hide Parse, ParseParts, ListText, PartsText, Trim, ParsePart, Expand, CutAt;
    var s := PartsText(parts, blksz);
    ParseIsParts(env, guid, parts, blksz, max);
    LastIsSemicolon(parts, blksz);
    TrimmedFits(s, max);
    ReadOneByOne(env, parts, blksz, Trim(s, max));
    CommaCutsName(env, parts[k - 1], blksz);
  }

  /**
   A new name with separators in it: every semicolon adds a partition to the table handed over;
   without one the table has as many as before, and the name ends in front of the first comma.
   */
  lemma RenameSeparated(env: map<string, string>, guid: string, slots: seq<Option<Part>>, blksz: u32, max: nat,
                        number: int, name: string)
    requires blksz > 0 && max > UUID_SIZE && Listed(slots) != [] && AllCarried(env, Listed(slots), blksz) && Plain(env, guid)
    requires TextLength(RenameAt(Listed(slots), number, name), blksz) <= max
    ensures var r, parts := Rename(env, guid, slots, blksz, max, number, name), Listed(slots);
            r.Restored? ==>
              && 1 <= number <= |parts|
              && (';' in name ==> |r.parts| == |parts| + Semicolons(name) > |parts|)
              && (';' !in name && ',' in name ==>
                    |r.parts| == |parts| && r.parts[number - 1].name == Expand(env, CutAt(name, ',').head))
  {
    hide Parse, ListText, PartsText, Semicolons, Expand, CutAt, Listed;
    var parts := Listed(slots);
    if Rename(env, guid, slots, blksz, max, number, name).Restored? {
      var renamed := RenameAt(parts, number, name);
      forall i | 0 <= i < |renamed|
        ensures ';' !in renamed[i].uuid && (i != number - 1 || ';' !in name ==> ';' !in renamed[i].name)
      {
        assert Carried(env, parts[i], blksz);
      }
      if ';' in name {
        SemicolonAddsPartition(env, guid, renamed, blksz, max);
        OnlyNewSemicolons(env, parts, blksz, number, name);
        SomeSemicolons(name);
      } else if ',' in name {
        ReadAfterComma(env, guid, renamed, blksz, max, number);
      }
    }
  }

  // ----- which partition is renamed

  /** How many partitions are listed up to number `k`. */
  function Place(slots: seq<Option<Part>>, k: nat): nat
    requires k <= |slots|
  {
    |Listed(slots[..k])|
  }

  lemma {:induction false} ListedConcat(a: seq<Option<Part>>, b: seq<Option<Part>>)
    ensures Listed(a + b) == Listed(a) + Listed(b)
    decreases |a|
  {
    if a == [] {
      assert a + b == b;
    } else {
      var own := if a[0].Some? then [a[0].value] else [];
      assert (a + b)[1..] == a[1..] + b;
      ListedConcat(a[1..], b);
      Associate(own, Listed(a[1..]), Listed(b));
    }
  }

  lemma PlaceOf(slots: seq<Option<Part>>, k: nat)
    requires 1 <= k <= |slots| && slots[k - 1].Some?
    ensures 1 <= Place(slots, k) <= |Listed(slots)| && Listed(slots)[Place(slots, k) - 1] == slots[k - 1].value
  {
    var front, own, back := slots[..k - 1], [slots[k - 1]], slots[k..];
    assert slots[..k] == front + own && slots == slots[..k] + back;
    ListedConcat(front, own);
    ListedConcat(slots[..k], back);
    assert Listed(own) == [slots[k - 1].value];
  }

  lemma {:induction false} FullCount(slots: seq<Option<Part>>)
    ensures |Listed(slots)| == |slots| <==> forall i :: 0 <= i < |slots| ==> slots[i].Some?
  {
    if slots != [] {
      FullCount(slots[1..]);
      assert forall i :: 0 < i < |slots| ==> slots[i] == slots[1..][i - 1];
    }
  }

  /** The entry renamed for number `k` is the device's partition `k` exactly when no number below it is unused. */
  lemma RenamesItsOwn(slots: seq<Option<Part>>, k: nat)
    requires 1 <= k <= |slots| && slots[k - 1].Some?
    ensures 1 <= Place(slots, k) <= |Listed(slots)| && Listed(slots)[Place(slots, k) - 1] == slots[k - 1].value
    ensures Place(slots, k) == k <==> forall j :: 0 <= j < k - 1 ==> slots[j].Some?
  {
    PlaceOf(slots, k);
    FullCount(slots[..k]);
    assert forall j :: 0 <= j < k ==> slots[..k][j] == slots[j];
  }

  /** Numbers 2 and 3 in use, 1 not: renaming number 2 gives partition 3 the new name. */
  lemma GapRenamesAnother(p: Part, q: Part, name: string)
    ensures var slots := [None, Some(p), Some(q)];
      slots[2 - 1] == Some(p) && RenameAt(Listed(slots), 2, name) == [p, q.(name := name)]
  {
    var slots := [None, Some(p), Some(q)];
    assert slots[1..] == [Some(p), Some(q)] && slots[1..][1..] == [Some(q)] && slots[1..][1..][1..] == [];
    assert Listed([Some(q)]) == [q];
    assert Listed(slots) == [p, q];
  }
}
