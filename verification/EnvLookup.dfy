/** `env_get_f` and `envmatch`: looking a variable up in the flat block of NUL-terminated strings. */
module EnvLookup {
  import opened Machine

  const NUL: char := '\0'

  /** One `name=value` string; the name ends at the first '='. */
  datatype Entry = Entry(name: string, value: string)

  predicate ValidName(name: string) {
    '=' !in name && NUL !in name
  }

  predicate ValidEntry(e: Entry) {
    ValidName(e.name) && NUL !in e.value
  }

  function EntryText(e: Entry): string {
    e.name + "=" + e.value
  }

  /** The strings, each with its NUL, and an empty string at the end. */
  function BlockText(entries: seq<Entry>): string {
    if entries == [] then [NUL] else EntryText(entries[0]) + [NUL] + BlockText(entries[1..])
  }

  /** The first entry of that name. */
  function Lookup(entries: seq<Entry>, name: string): Option<string> {
    if entries == [] then None
    else if entries[0].name == name then Some(entries[0].value)
    else Lookup(entries[1..], name)
  }

  /** `env_get_char`; what lies behind the block is never read. */
  function CharAt(env: string, i: nat): char
    requires i < |env|
  {
    env[i]
  }

  /** The string at `i` is the text of `e`. */
  ghost predicate EntryAt(env: string, i: nat, e: Entry) {
    && ValidEntry(e) && i + |EntryText(e)| < |env|
    && env[i..i + |EntryText(e)|] == EntryText(e) && env[i + |EntryText(e)|] == NUL
  }

  lemma EntryChars(env: string, i: nat, e: Entry, k: nat)
    requires EntryAt(env, i, e) && k < |EntryText(e)|
    ensures env[i + k] == EntryText(e)[k]
    ensures k < |e.name| ==> env[i + k] == e.name[k]
    ensures k == |e.name| ==> env[i + k] == '='
    ensures k > |e.name| ==> env[i + k] == e.value[k - |e.name| - 1]
  {
    assert env[i..i + |EntryText(e)|][k] == env[i + k];
  }

  /** `envmatch`: the index of the value when the entry at `start` has this name, else -1. */
  method EnvMatch(env: string, name: string, start: nat, ghost e: Entry) returns (val: int)
    requires ValidName(name) && EntryAt(env, start, e)
    ensures val == if e.name == name then start + |name| + 1 else -1
  {
    var k := 0;
    EntryChars(env, start, e, 0);
    while k < |name| && name[k] == CharAt(env, start + k)
      invariant 0 <= k <= |name| && k <= |e.name| && name[..k] == e.name[..k]
      decreases |name| - k
    {
      EntryChars(env, start, e, k);
      assert name[..k + 1] == name[..k] + [name[k]];
      if k < |e.name| { assert e.name[..k + 1] == e.name[..k] + [e.name[k]]; }
      k := k + 1;
    }
    EntryChars(env, start, e, k);
    if k == |name| && CharAt(env, start + k) == '=' {
      assert k == |e.name| ==> name == name[..k] == e.name[..k] == e.name;
      return start + k + 1;
    }
    val := -1;
  }

  /** The copy-out loop: the value with its NUL, or as much as fits with a NUL in the last place. */
  function CopiedOut(value: string, len: nat): string {
    if |value| < len then value + [NUL]
    else if len == 0 then []
    else value[..len - 1] + [NUL]
  }

  function Returned(value: string, len: nat): nat {
    if |value| < len then |value| else len
  }

  /** The buffer is never overrun, always ends with a NUL, and the number returned tells whether the value was cut off. */
  lemma CopyMeans(value: string, len: nat)
    ensures var buf, n := CopiedOut(value, len), Returned(value, len);
            && |buf| <= len && n <= len
            && (len > 0 ==> buf != [] && buf[|buf| - 1] == '\0' && buf[..|buf| - 1] <= value)
            && (n < len ==> buf == value + "\0" && n == |value|)
            && (n == len <==> |value| + 1 > len)
  {
  }

  method CopyOut(env: string, val: nat, len: nat, ghost value: string) returns (n: nat, buf: string)
    requires NUL !in value && val + |value| < |env|
    requires env[val..val + |value|] == value && env[val + |value|] == NUL
    ensures n == Returned(value, len) && buf == CopiedOut(value, len)
  {
    n, buf := 0, [];
    while n < len
      invariant 0 <= n <= len && n <= |value| && buf == value[..n]
      decreases len - n
    {
      var c := CharAt(env, val + n);
      if n < |value| { assert c == env[val..val + |value|][n] == value[n]; }
      buf := buf + [c];
      if c == NUL { return n, buf; }
      assert n < |value|;
      n := n + 1;
    }
    if n > 0 {
      assert buf[..n - 1] == value[..n - 1];
      buf := buf[n - 1 := NUL];
    }
  }

  /** Where the entries from number `k` on stand in the block. */
  ghost predicate At(env: string, i: nat, entries: seq<Entry>) {
    i + |BlockText(entries)| <= |env| && env[i..i + |BlockText(entries)|] == BlockText(entries)
  }

  lemma FirstEntryAt(env: string, i: nat, entries: seq<Entry>)
    requires At(env, i, entries) && entries != [] && ValidEntry(entries[0])
    ensures EntryAt(env, i, entries[0])
    ensures At(env, i + |EntryText(entries[0])| + 1, entries[1..])
  {
    var text, rest := EntryText(entries[0]), BlockText(entries[1..]);
    var all := BlockText(entries);
    assert all == text + [NUL] + rest;
    var window := env[i..i + |all|];
    assert window[..|text|] == text && window[|text|] == NUL && window[|text| + 1..] == rest;
    assert env[i..i + |text|] == window[..|text|];
    assert env[i + |text|] == window[|text|];
    assert env[i + |text| + 1..i + |all|] == window[|text| + 1..];
  }

  lemma BlockLength(entries: seq<Entry>)
    requires entries != []
    ensures |BlockText(entries)| == |EntryText(entries[0])| + 1 + |BlockText(entries[1..])|
  {
  }

  lemma EndAt(env: string, i: nat)
    requires At(env, i, [])
    ensures i < |env| && env[i] == NUL
  {
    assert env[i..i + 1][0] == env[i];
  }

  /** A string starts here exactly when entries are left. */
  lemma StringStarts(env: string, i: nat, entries: seq<Entry>)
    requires At(env, i, entries) && (entries != [] ==> ValidEntry(entries[0]))
    ensures i < |env| && (CharAt(env, i) == NUL <==> entries == [])
  {
    if entries == [] {
      EndAt(env, i);
    } else {
      FirstEntryAt(env, i, entries);
      EntryChars(env, i, entries[0], 0);
    }
  }

  /** To the NUL that ends the string at `i`; `CONFIG_ENV_SIZE` characters are the limit. */
  method SkipString(env: string, i: nat, size: nat, ghost e: Entry) returns (overrun: bool, nxt: nat)
    requires EntryAt(env, i, e)
    ensures overrun <==> size < i + |EntryText(e)|
    ensures !overrun ==> nxt == i + |EntryText(e)|
  {
    nxt := i;
    while CharAt(env, nxt) != NUL
      invariant i <= nxt <= i + |EntryText(e)| && (i < nxt ==> nxt <= size)
      decreases |env| - nxt
    {
      if nxt >= size { return true, nxt; }
      nxt := nxt + 1;
    }
    if nxt < i + |EntryText(e)| { EntryChars(env, i, e, nxt - i); }
    overrun := false;
  }

  /**
   `env_get_f` on a well-formed block agrees with a search of the entries: -1 exactly when no
   entry has the name, else the first such entry's value, copied out as far as the buffer reaches.
   */
  method EnvGetF(env: string, name: string, len: nat, size: nat, ghost entries: seq<Entry>) returns (r: int, buf: string)
    requires ValidName(name) && At(env, 0, entries) && |BlockText(entries)| <= size
    requires forall k :: 0 <= k < |entries| ==> ValidEntry(entries[k])
    ensures match Lookup(entries, name)
            case None => r == -1
            case Some(value) => r == Returned(value, len) && buf == CopiedOut(value, len)
  {
    hide BlockText, EntryText, CharAt, At, EntryAt;
    var i := 0;
    buf := [];
    ghost var left := entries;
    StringStarts(env, i, left);
    while CharAt(env, i) != NUL
      invariant 0 <= i < |env| && At(env, i, left) && i + |BlockText(left)| <= size
      invariant forall k :: 0 <= k < |left| ==> ValidEntry(left[k])
      invariant Lookup(entries, name) == Lookup(left, name)
      invariant CharAt(env, i) == NUL <==> left == []
      decreases |left|
    {
      FirstEntryAt(env, i, left);
      BlockLength(left);
      var overrun, nxt := SkipString(env, i, size, left[0]);
      if overrun { return -1, buf; }
      var val := EnvMatch(env, name, i, left[0]);
      if val >= 0 {
        ValueAt(env, i, left[0]);
        r, buf := CopyOut(env, val, len, left[0].value);
        return;
      }
      i, left := nxt + 1, left[1..];
      StringStarts(env, i, left);
    }
    r := -1;
  }

  lemma ValueAt(env: string, i: nat, e: Entry)
    requires EntryAt(env, i, e)
    ensures var val := i + |e.name| + 1;
            val + |e.value| < |env| && env[val..val + |e.value|] == e.value && env[val + |e.value|] == NUL
  {
    var window := env[i..i + |EntryText(e)|];
    assert window[|e.name| + 1..] == e.value;
    assert env[i + |e.name| + 1..i + |EntryText(e)|] == window[|e.name| + 1..];
  }
}
