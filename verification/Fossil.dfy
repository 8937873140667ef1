/**
 The leftover argument vector of a mount command in a process's memory: parsing it, finding it,
 and overwriting it with a clean one. Memory is an array of bytes, addresses are its indices.
 */
module Fossil {
  import opened Bytes
  import opened Sequences

  type Text = seq<Byte>

  const FLAG_BYTES := 4
  const STRINGS: nat := 4

  datatype MountInfoEntry =
    MountInfoEntry(source: Text, target: Text, filesystemType: Text, mountOptions: Text, isSuspicious: bool)

  /** The four strings, the raw bytes of the flags, and the two sizes. */
  datatype MountArgv =
    MountArgv(start: nat, source: Text, target: Text, filesystemType: Text, mountOptions: Text, flags: seq<Byte>,
              fossilSize: nat, remnantSize: nat)

  datatype Parsed = Invalid | Valid(argv: MountArgv)

  predicate NulFree(s: Text) {
    0 !in s
  }

  // ---------- parsing ----------

  /** The index of the first NUL in [from, limit), or limit. */
  function FindNul(mem: seq<Byte>, from: nat, limit: nat): (n: nat)
    requires from <= limit <= |mem|
    ensures from <= n <= limit
    ensures forall i :: from <= i < n ==> mem[i] != 0
    ensures n < limit ==> mem[n] == 0
    decreases limit - from
  {
    if from == limit || mem[from] == 0 then from else FindNul(mem, from + 1, limit)
  }

  /** The index of the first of two NULs in a row in [from, limit), or limit. */
  function FindDoubleNul(mem: seq<Byte>, from: nat, limit: nat): (n: nat)
    requires from <= limit <= |mem|
    ensures from <= n <= limit
    ensures n < limit ==> n + 1 < limit && mem[n] == 0 && mem[n + 1] == 0
    ensures forall i :: from <= i < n && i + 1 < limit ==> !(mem[i] == 0 && mem[i + 1] == 0)
    decreases limit - from
  {
    if from + 1 >= limit then limit
    else if mem[from] == 0 && mem[from + 1] == 0 then from
    else FindDoubleNul(mem, from + 1, limit)
  }

  datatype Field = NoField | Field(text: Text, next: nat)

  /** The NUL-terminated string at `ptr`, and the address behind it. */
  function FieldAt(mem: seq<Byte>, ptr: nat, limit: nat): (f: Field)
    requires ptr <= limit <= |mem|
    ensures f.Field? ==> ptr < f.next <= limit && |f.text| == f.next - 1 - ptr
  {
    var n := FindNul(mem, ptr, limit);
    if n == limit then NoField else Field(mem[ptr..n], n + 1)
  }

  datatype FieldList = NoFields | Fields(texts: seq<Text>, next: nat)

  /** n such strings in a row. */
  function FieldsAt(mem: seq<Byte>, ptr: nat, limit: nat, n: nat): (r: FieldList)
    requires ptr <= limit <= |mem|
    ensures r.Fields? ==> |r.texts| == n && ptr <= r.next <= limit
    decreases n
  {
    if n == 0 then Fields([], ptr)
    else
      match FieldAt(mem, ptr, limit)
      case NoField => NoFields
      case Field(text, next) => Prepended([text], FieldsAt(mem, next, limit, n - 1))
  }

  function Prepended(texts: seq<Text>, r: FieldList): FieldList {
    if r.NoFields? then NoFields else Fields(texts + r.texts, r.next)
  }

  /** The fossil at `start`, if there is one in front of `limit`. */
  function Parse(mem: seq<Byte>, start: nat, limit: nat): (r: Parsed)
    requires limit <= |mem|
    ensures r.Valid? ==> r.argv.start == start < limit
  {
    if start >= limit then Invalid else FossilFrom(mem, start, limit, FieldsAt(mem, start, limit, STRINGS))
  }

  function FossilFrom(mem: seq<Byte>, start: nat, limit: nat, r: FieldList): Parsed
    requires start <= limit <= |mem|
    requires r.Fields? ==> |r.texts| == STRINGS && start <= r.next <= limit
  {
    match r
    case NoFields => Invalid
    case Fields(texts, next) =>
      if next + FLAG_BYTES > limit then Invalid
      else
        var end := next + FLAG_BYTES;
        Valid(MountArgv(start, texts[0], texts[1], texts[2], texts[3], mem[next..end], end - start,
                        RemnantSize(mem, end, limit)))
  }

  /** `all` is what parsing n more strings at `ptr` makes of the `texts` so far. */
  lemma FieldsStep(mem: seq<Byte>, texts: seq<Text>, ptr: nat, limit: nat, n: nat, all: FieldList)
    requires n > 0 && ptr <= limit <= |mem| && all == Prepended(texts, FieldsAt(mem, ptr, limit, n))
    ensures match FieldAt(mem, ptr, limit)
            case NoField => all == NoFields
            case Field(text, next) => all == Prepended(texts + [text], FieldsAt(mem, next, limit, n - 1))
  {
    match FieldAt(mem, ptr, limit)
    case NoField =>
    case Field(text, next) =>
      var r := FieldsAt(mem, next, limit, n - 1);
      assert r.Fields? ==> texts + ([text] + r.texts) == texts + [text] + r.texts;
  }

  /** How far behind the fossil the first double NUL is, 0 if there is none. */
  function RemnantSize(mem: seq<Byte>, end: nat, limit: nat): nat
    requires end <= limit <= |mem|
  {
    var n := FindDoubleNul(mem, end, limit);
    if n < limit then n - end else 0
  }

  method ParseAndCopyStringField(mem: array<Byte>, ptr: nat, limit: nat) returns (f: Field)
    requires ptr <= limit <= mem.Length
    ensures f == FieldAt(mem[..], ptr, limit)
  {
    var end := ptr;
    while end < limit && mem[end] != 0
      invariant ptr <= end <= limit
      invariant FindNul(mem[..], end, limit) == FindNul(mem[..], ptr, limit)
    {
      end := end + 1;
    }
    if end == limit {
      return NoField;
    }
    assert mem[ptr..end] == mem[..][ptr..end];
    return Field(mem[ptr..end], end + 1);
  }

  method FindDoubleNull(mem: array<Byte>, start: nat, limit: nat) returns (found: bool, p: nat)
    requires start <= limit <= mem.Length
    ensures found <==> FindDoubleNul(mem[..], start, limit) < limit
    ensures found ==> p == FindDoubleNul(mem[..], start, limit)
  {
    p := start;
    while p + 1 < limit
      invariant start <= p <= limit
      invariant FindDoubleNul(mem[..], p, limit) == FindDoubleNul(mem[..], start, limit)
      decreases limit - p
    {
      if mem[p] == 0 && mem[p + 1] == 0 {
        return true, p;
      }
      p := p + 1;
    }
    return false, p;
  }

  /** One more string: `all` is what parsing n strings at `ptr` makes of the `texts` so far. */
  method ReadField(mem: array<Byte>, texts: seq<Text>, ptr: nat, limit: nat, ghost n: nat, ghost all: FieldList)
    returns (ok: bool, texts': seq<Text>, next: nat)
    requires n > 0 && ptr <= limit <= mem.Length && all == Prepended(texts, FieldsAt(mem[..], ptr, limit, n))
    ensures !ok ==> all == NoFields
    ensures ok ==> ptr <= next <= limit && |texts'| == |texts| + 1 && all == Prepended(texts', FieldsAt(mem[..], next, limit, n - 1))
  {
    FieldsStep(mem[..], texts, ptr, limit, n, all);
    var field := ParseAndCopyStringField(mem, ptr, limit);
    match field
    case NoField => return false, texts, ptr;
    case Field(text, end) => return true, texts + [text], end;
  }

  /** The four strings of a fossil, one field after the other. */
  method ReadFields(mem: array<Byte>, start: nat, limit: nat) returns (r: FieldList)
    requires start <= limit <= mem.Length
    ensures r == FieldsAt(mem[..], start, limit, STRINGS)
  {
    ghost var all := FieldsAt(mem[..], start, limit, STRINGS);
    var texts: seq<Text> := [];
    var ok, ptr := true, start;
    ok, texts, ptr := ReadField(mem, texts, ptr, limit, STRINGS, all);
    if !ok { return NoFields; }
    ok, texts, ptr := ReadField(mem, texts, ptr, limit, STRINGS - 1, all);
    if !ok { return NoFields; }
    ok, texts, ptr := ReadField(mem, texts, ptr, limit, STRINGS - 2, all);
    if !ok { return NoFields; }
    ok, texts, ptr := ReadField(mem, texts, ptr, limit, STRINGS - 3, all);
    if !ok { return NoFields; }
    assert texts + [] == texts;
    return Fields(texts, ptr);
  }

  /** The flags and the remnant, behind the strings. */
  method ReadRest(mem: array<Byte>, start: nat, limit: nat, fields: FieldList) returns (parsed: Parsed)
    requires start <= limit <= mem.Length
    requires fields.Fields? ==> |fields.texts| == STRINGS && start <= fields.next <= limit
    ensures parsed == FossilFrom(mem[..], start, limit, fields)
  {
    if fields.NoFields? || fields.next + FLAG_BYTES > limit {
      return Invalid;
    }
    var ptr := fields.next;
    var end := ptr + FLAG_BYTES;
    var flags := mem[ptr..end];
    assert flags == mem[..][ptr..end];
    var found, double := FindDoubleNull(mem, end, limit);
    return Valid(MountArgv(start, fields.texts[0], fields.texts[1], fields.texts[2], fields.texts[3], flags, end - start,
                           if found then double - end else 0));
  }

  method ParseFromMemory(mem: array<Byte>, start: nat, limit: nat) returns (parsed: Parsed)
    requires limit <= mem.Length
    ensures parsed == Parse(mem[..], start, limit)
  {
    if start >= limit {
      return Invalid;
    }
    var fields := ReadFields(mem, start, limit);
    parsed := ReadRest(mem, start, limit, fields);
  }

  // ---------- writing ----------

  function Joined(texts: seq<Text>): seq<Byte> {
    if texts == [] then [] else texts[0] + [0] + Joined(texts[1..])
  }

  function Texts(f: MountArgv): seq<Text> {
    [f.source, f.target, f.filesystemType, f.mountOptions]
  }

  /** The bytes a fossil occupies. */
  function Image(f: MountArgv): seq<Byte> {
    Joined(Texts(f)) + f.flags
  }

  lemma JoinedFour(a: Text, b: Text, c: Text, d: Text)
    ensures Joined([a, b, c, d]) == (a + [0]) + (b + [0]) + (c + [0]) + (d + [0])
  {
    assert [a, b, c, d][1..] == [b, c, d];
    assert [b, c, d][1..] == [c, d];
    assert [c, d][1..] == [d];
    assert [d][1..] == [];
    assert Joined([d]) == d + [0];
    assert Joined([c, d]) == c + [0] + (d + [0]);
    assert Joined([b, c, d]) == b + [0] + (c + [0] + (d + [0]));
  }

  /** A fossil made from a mount entry, at an address and with flags taken over. */
  function Clean(e: MountInfoEntry, start: nat, flags: seq<Byte>): MountArgv {
    MountArgv(start, e.source, e.target, e.filesystemType, e.mountOptions, flags,
              |e.source| + 1 + |e.target| + 1 + |e.filesystemType| + 1 + |e.mountOptions| + 1 + FLAG_BYTES, 0)
  }

  lemma CleanSize(e: MountInfoEntry, start: nat, flags: seq<Byte>)
    requires |flags| == FLAG_BYTES
    ensures Clean(e, start, flags).fossilSize == |Image(Clean(e, start, flags))|
  {
    JoinedFour(e.source, e.target, e.filesystemType, e.mountOptions);
  }

  /** One string of a fossil, behind what has been written of it so far. */
  method WriteField(mem: array<Byte>, ghost before: seq<Byte>, ghost start: nat, ghost done: seq<Byte>, ptr: nat, text: Text)
    returns (next: nat)
    requires ptr == start + |done| && ptr + |text| + 1 <= mem.Length == |before|
    requires mem[..] == Written(before, start, done)
    modifies mem
    ensures next == ptr + |text| + 1
    ensures mem[..] == Written(before, start, done + (text + [0]))
  {
    CopyBytes(mem, ptr, text + [0]);
    WrittenTwice(before, start, done, text + [0]);
    return ptr + |text| + 1;
  }

  method WriteToMemory(mem: array<Byte>, f: MountArgv)
    requires |f.flags| == FLAG_BYTES && f.start + |Image(f)| <= mem.Length
    modifies mem
    ensures mem[..] == Written(old(mem[..]), f.start, Image(f))
  {
    JoinedFour(f.source, f.target, f.filesystemType, f.mountOptions);
    ghost var before := mem[..];
    ghost var done: seq<Byte> := [];
    assert mem[..] == Written(before, f.start, done);
    var ptr := f.start;
    ptr := WriteField(mem, before, f.start, done, ptr, f.source);
    done := done + (f.source + [0]);
    ptr := WriteField(mem, before, f.start, done, ptr, f.target);
    done := done + (f.target + [0]);
    ptr := WriteField(mem, before, f.start, done, ptr, f.filesystemType);
    done := done + (f.filesystemType + [0]);
    ptr := WriteField(mem, before, f.start, done, ptr, f.mountOptions);
    done := done + (f.mountOptions + [0]);
    CopyBytes(mem, ptr, f.flags);
    WrittenTwice(before, f.start, done, f.flags);
    assert done + f.flags == Image(f);
  }

  function Zeroes(n: nat): (z: seq<Byte>)
    ensures |z| == n && forall i :: 0 <= i < n ==> z[i] == 0
  {
    seq(n, i => 0)
  }

  method CleanMemory(mem: array<Byte>, f: MountArgv)
    requires f.start + f.fossilSize + f.remnantSize <= mem.Length
    modifies mem
    ensures mem[..] == Written(old(mem[..]), f.start, Zeroes(f.fossilSize + f.remnantSize))
  {
    var totalSize := f.fossilSize + f.remnantSize;
    if totalSize > 0 {
      CopyBytes(mem, f.start, Zeroes(totalSize));
    }
  }

  // ---------- finding and replacing ----------

  const SECLABEL: Text := [115, 101, 99, 108, 97, 98, 101, 108]
  const SLASH: Byte := 47

  predicate PassesHeuristics(f: MountArgv) {
    && f.target != [] && f.source != [] && f.filesystemType != []
    && f.target[0] == SLASH
    && 2 <= |f.filesystemType| <= 10
    && Contains(f.mountOptions, SECLABEL)
  }

  /** A device, a path, a file system with a name of two to ten bytes, and "seclabel" among the options. */
  lemma HeuristicsAre(f: MountArgv)
    ensures PassesHeuristics(f) <==>
              && |f.source| >= 1 && |f.target| >= 1 && f.target[0] == 47 && 1 < |f.filesystemType| < 11
              && exists k: nat :: HasSeclabel(f.mountOptions, k)
  {
    forall k: nat ensures HasSeclabel(f.mountOptions, k) <==> OccursAt(f.mountOptions, SECLABEL, k) {
    }
    if k: nat :| HasSeclabel(f.mountOptions, k) {
      assert OccursAt(f.mountOptions, SECLABEL, k);
    }
  }

  predicate HasSeclabel(options: Text, k: nat) {
    k + 8 <= |options| && options[k..k + 8] == [115, 101, 99, 108, 97, 98, 101, 108]
  }

  /** The source's tests, one after the other. */
  method CheckHeuristics(f: MountArgv) returns (passes: bool)
    ensures passes == PassesHeuristics(f)
  {
    if f.target == [] || f.source == [] || f.filesystemType == [] {
      return false;
    }
    if f.target[0] != SLASH {
      return false;
    }
    if |f.filesystemType| > 10 || |f.filesystemType| < 2 {
      return false;
    }
    return Contains(f.mountOptions, SECLABEL);
  }

  predicate Matches(mem: seq<Byte>, p: nat, limit: nat)
    requires limit <= |mem|
  {
    Parse(mem, p, limit).Valid? && PassesHeuristics(Parse(mem, p, limit).argv)
  }

  /** The lowest number in [from, limit) with the property, or limit. */
  function FirstWhere(f: nat -> bool, from: nat, limit: nat): (n: nat)
    requires from <= limit
    ensures from <= n <= limit && (n < limit ==> f(n))
    ensures forall p: nat :: from <= p < n ==> !f(p)
    decreases limit - from
  {
    if from == limit || f(from) then from else FirstWhere(f, from + 1, limit)
  }

  function MatchesIn(mem: seq<Byte>, limit: nat): nat -> bool
    requires limit <= |mem|
  {
    (p: nat) => Matches(mem, p, limit)
  }

  /** What the search of a range must come up with. */
  function Search(mem: seq<Byte>, from: nat, limit: nat): (r: Parsed)
    requires from <= limit <= |mem|
    ensures r.Valid? ==> from <= r.argv.start < limit && r == Parse(mem, r.argv.start, limit)
  {
    var n := FirstWhere(MatchesIn(mem, limit), from, limit);
    if n < limit then Parse(mem, n, limit) else Invalid
  }

  method Find(mem: array<Byte>, from: nat, limit: nat) returns (r: Parsed)
    requires from <= limit <= mem.Length
    ensures r == Search(mem[..], from, limit)
  {
    ghost var m := mem[..];
    ghost var f := MatchesIn(m, limit);
    var p := from;
    while p < limit
      invariant from <= p <= limit
      invariant FirstWhere(f, p, limit) == FirstWhere(f, from, limit)
    {
      var parsed := ParseFromMemory(mem, p, limit);
      assert f(p) == Matches(m, p, limit);
      if parsed.Valid? {
        var passes := CheckHeuristics(parsed.argv);
        if passes {
          return parsed;
        }
      }
      p := p + 1;
    }
    return Invalid;
  }

  predicate IsTemplate(entries: seq<MountInfoEntry>, i: nat, anchor: Text) {
    i + 1 < |entries| && Contains(entries[i].target, anchor) && entries[i + 1].isSuspicious
  }

  predicate IsFirstTemplate(entries: seq<MountInfoEntry>, i: nat, anchor: Text) {
    IsTemplate(entries, i, anchor) && forall j: nat :: j < i ==> !IsTemplate(entries, j, anchor)
  }

  /** The template comes right in front of a suspicious entry and has the anchor in its target; none
      before it does. */
  lemma FirstTemplateIs(entries: seq<MountInfoEntry>, i: nat, anchor: Text)
    ensures IsFirstTemplate(entries, i, anchor) <==>
              && i + 1 < |entries| && entries[i + 1].isSuspicious && Contains(entries[i].target, anchor)
              && forall j :: 0 <= j < i && entries[j + 1].isSuspicious ==> !Contains(entries[j].target, anchor)
  {
    if IsFirstTemplate(entries, i, anchor) {
      forall j | 0 <= j < i && entries[j + 1].isSuspicious
        ensures !Contains(entries[j].target, anchor)
      {
        assert !IsTemplate(entries, j, anchor);
      }
    }
  }

  /** The entry in front of the first suspicious one that comes right behind the anchor. */
  method FindTemplate(entries: seq<MountInfoEntry>, anchor: Text) returns (found: bool, template: nat)
    ensures found ==> IsFirstTemplate(entries, template, anchor)
    ensures !found ==> forall i: nat :: !IsTemplate(entries, i, anchor)
  {
    var i := 1;
    while i < |entries|
      invariant i >= 1
      invariant forall j: nat :: j + 1 < i ==> !IsTemplate(entries, j, anchor)
    {
      if Contains(entries[i - 1].target, anchor) && entries[i].isSuspicious {
        return true, i - 1;
      }
      i := i + 1;
    }
    return false, 0;
  }

  /** Memory after `extent` bytes at `start` were cleared and the image written there. */
  function Overlaid(mem: seq<Byte>, start: nat, extent: nat, image: seq<Byte>): seq<Byte>
    requires start + extent <= |mem| && start + |image| <= |mem|
  {
    Written(Written(mem, start, Zeroes(extent)), start, image)
  }

  /** Memory after the old fossil and its remnant were cleared and the clean one written. */
  function Spoofed(mem: seq<Byte>, f: MountArgv, clean: MountArgv): seq<Byte>
    requires f.start + f.fossilSize + f.remnantSize <= |mem| && f.start + |Image(clean)| <= |mem|
  {
    Overlaid(mem, f.start, f.fossilSize + f.remnantSize, Image(clean))
  }

  /** Clearing the old fossil and its remnant, then writing the clean one. */
  method Replace(mem: array<Byte>, f: MountArgv, clean: MountArgv)
    requires f.start + f.fossilSize + f.remnantSize <= mem.Length && clean.start == f.start
    requires |clean.flags| == FLAG_BYTES && f.start + |Image(clean)| <= mem.Length
    modifies mem
    ensures mem[..] == Spoofed(old(mem[..]), f, clean)
  {
    CleanMemory(mem, f);
    WriteToMemory(mem, clean);
  }

  ghost predicate HasTemplate(entries: seq<MountInfoEntry>, anchor: Text) {
    exists i: nat :: IsTemplate(entries, i, anchor)
  }

  /** A mount entry as a mount command has it in its memory. */
  function EntryBytes(e: MountInfoEntry, flags: seq<Byte>): seq<Byte> {
    e.source + [0] + e.target + [0] + e.filesystemType + [0] + e.mountOptions + [0] + flags
  }

  /** Memory after the fossil `f` was replaced by the entry `e`: that entry's bytes, zeroes up to where
      the fossil and its remnant ended, and everything else as before. */
  ghost predicate ReplacedBy(before: seq<Byte>, f: MountArgv, e: MountInfoEntry, after: seq<Byte>) {
    var bytes, end := EntryBytes(e, f.flags), f.start + f.fossilSize + f.remnantSize;
    && end <= |before| == |after| && f.start + |bytes| <= |before|
    && forall i :: 0 <= i < |before| ==>
         after[i] == if f.start <= i < f.start + |bytes| then bytes[i - f.start]
                     else if f.start <= i < end then 0
                     else before[i]
  }

  predicate RoomFor(e: MountInfoEntry, f: MountArgv, length: nat) {
    f.start + |EntryBytes(e, f.flags)| <= length
  }

  lemma CleanImage(e: MountInfoEntry, start: nat, flags: seq<Byte>)
    ensures Image(Clean(e, start, flags)) == EntryBytes(e, flags)
  {
    ImageIs(Clean(e, start, flags));
  }

  lemma ImageIs(f: MountArgv)
    ensures Image(f) == f.source + [0] + f.target + [0] + f.filesystemType + [0] + f.mountOptions + [0] + f.flags
  {
    JoinedFour(f.source, f.target, f.filesystemType, f.mountOptions);
    Flattened(f.source, f.target, f.filesystemType, f.mountOptions);
  }

  lemma Flattened(a: Text, b: Text, c: Text, d: Text)
    ensures (a + [0]) + (b + [0]) + (c + [0]) + (d + [0]) == a + [0] + b + [0] + c + [0] + d + [0]
  {
  }

  lemma FourNulFree(f: MountArgv)
    ensures AllNulFree(Texts(f)) <==> 0 !in f.source && 0 !in f.target && 0 !in f.filesystemType && 0 !in f.mountOptions
  {
    var texts := Texts(f);
    assert texts[0] == f.source && texts[1] == f.target && texts[2] == f.filesystemType && texts[3] == f.mountOptions;
  }

  lemma SpoofedIsReplaced(before: seq<Byte>, f: MountArgv, e: MountInfoEntry)
    requires f.start + f.fossilSize + f.remnantSize <= |before| && RoomFor(e, f, |before|)
    ensures f.start + |Image(Clean(e, f.start, f.flags))| <= |before|
    ensures ReplacedBy(before, f, e, Spoofed(before, f, Clean(e, f.start, f.flags)))
  {
    CleanImage(e, f.start, f.flags);
  }

  /** Nothing compares the clean fossil's size with the old one's, so the memory the clean form of
      the template takes must be there. */
  method SpoofZygoteFossil(mem: array<Byte>, from: nat, limit: nat, entries: seq<MountInfoEntry>, anchor: Text)
    returns (spoofed: bool, found: Parsed, template: nat)
    requires from <= limit <= mem.Length
    requires var found := Search(mem[..], from, limit);
             found.Valid? ==> forall i: nat :: IsFirstTemplate(entries, i, anchor) ==> RoomFor(entries[i], found.argv, mem.Length)
    modifies mem
    ensures found == Search(old(mem[..]), from, limit)
    ensures spoofed <==> found.Valid? && !Contains(found.argv.target, anchor) && HasTemplate(entries, anchor)
    ensures !spoofed ==> mem[..] == old(mem[..])
    ensures spoofed ==> IsFirstTemplate(entries, template, anchor)
                        && ReplacedBy(old(mem[..]), found.argv, entries[template], mem[..])
  {
    template := 0;
    found := Find(mem, from, limit);
    if found.Invalid? {
      return false, found, template;
    }
    if Contains(found.argv.target, anchor) {
      return false, found, template;
    }
    var ok;
    ok, template := FindTemplate(entries, anchor);
    if !ok {
      return false, found, template;
    }
    var entry := entries[template];
    CleanFits(mem[..], from, limit, found, entry);
    SpoofedIsReplaced(mem[..], found.argv, entry);
    Replace(mem, found.argv, Clean(entry, found.argv.start, found.argv.flags));
    spoofed := true;
  }

  lemma CleanFits(mem: seq<Byte>, from: nat, limit: nat, found: Parsed, e: MountInfoEntry)
    requires from <= limit <= |mem| && found == Search(mem, from, limit) && found.Valid?
    requires RoomFor(e, found.argv, |mem|)
    ensures var f := found.argv;
            && |f.flags| == FLAG_BYTES && f.start + f.fossilSize + f.remnantSize <= |mem|
            && f.start + |Image(Clean(e, f.start, f.flags))| <= |mem|
  {
    ParsedIsImage(mem, found.argv.start, limit);
    CleanImage(e, found.argv.start, found.argv.flags);
  }

  // ---------- what parsing and writing promise each other ----------

  predicate AllNulFree(texts: seq<Text>) {
    forall i :: 0 <= i < |texts| ==> NulFree(texts[i])
  }

  /** Strings written one after the other are read back. */
  lemma {:induction false} ReadsJoined(mem: seq<Byte>, p: nat, limit: nat, texts: seq<Text>, image: seq<Byte>)
    requires AllNulFree(texts) && image == Joined(texts) && p + |image| <= limit <= |mem|
    requires mem[p..p + |image|] == image
    ensures FieldsAt(mem, p, limit, |texts|) == Fields(texts, p + |image|)
    decreases |texts|
  {
    if texts != [] {
      var text, rest := texts[0], Joined(texts[1..]);
      var next := p + |text| + 1;
      FieldInImage(mem, p, limit, text, rest);
      ReadsJoined(mem, next, limit, texts[1..], rest);
      FirstField(mem, p, limit, text, texts[1..], next, next + |rest|);
      assert [text] + texts[1..] == texts;
    }
  }

  lemma FirstField(mem: seq<Byte>, p: nat, limit: nat, text: Text, texts: seq<Text>, next: nat, end: nat)
    requires p <= limit <= |mem| && FieldAt(mem, p, limit) == Field(text, next)
    requires FieldsAt(mem, next, limit, |texts|) == Fields(texts, end)
    ensures FieldsAt(mem, p, limit, |texts| + 1) == Fields([text] + texts, end)
  {
  }

  lemma FieldInImage(mem: seq<Byte>, p: nat, limit: nat, text: Text, rest: seq<Byte>)
    requires NulFree(text) && p + |text| + 1 + |rest| <= limit <= |mem|
    requires mem[p..p + |text| + 1 + |rest|] == text + [0] + rest
    ensures FieldAt(mem, p, limit) == Field(text, p + |text| + 1)
    ensures mem[p + |text| + 1..p + |text| + 1 + |rest|] == rest
  {
    var all := text + [0] + rest;
    var n := p + |text|;
    forall i | 0 <= i < |all|
      ensures mem[p + i] == all[i]
    {
      assert mem[p + i] == mem[p..p + |text| + 1 + |rest|][i];
    }
    assert forall i :: 0 <= i < |text| ==> all[i] == text[i] && all[i] != 0;
    assert all[|text|] == 0;
    assert forall i :: p <= i < n ==> mem[i] == all[i - p];
    assert FindNul(mem, p, limit) == n;
    assert mem[p..n] == text;
    forall i | 0 <= i < |rest|
      ensures mem[n + 1 + i] == rest[i]
    {
      assert mem[p + (|text| + 1 + i)] == all[|text| + 1 + i];
    }
  }

  /** What was read is there, byte for byte. */
  lemma {:induction false} JoinedRead(mem: seq<Byte>, p: nat, limit: nat, n: nat)
    requires p <= limit <= |mem| && FieldsAt(mem, p, limit, n).Fields?
    ensures var r := FieldsAt(mem, p, limit, n);
            AllNulFree(r.texts) && mem[p..r.next] == Joined(r.texts)
    decreases n
  {
    if n > 0 {
      var f := FieldAt(mem, p, limit);
      var r := FieldsAt(mem, f.next, limit, n - 1);
      JoinedRead(mem, f.next, limit, n - 1);
      PrependField(mem, p, f, r, limit);
    }
  }

  lemma PrependField(mem: seq<Byte>, p: nat, f: Field, r: FieldList, limit: nat)
    requires p <= limit <= |mem| && f == FieldAt(mem, p, limit) && f.Field? && r.Fields? && f.next <= r.next <= limit
    requires AllNulFree(r.texts) && mem[f.next..r.next] == Joined(r.texts)
    ensures AllNulFree([f.text] + r.texts) && mem[p..r.next] == Joined([f.text] + r.texts)
  {
    assert ([f.text] + r.texts)[1..] == r.texts;
    assert mem[p..f.next] == f.text + [0];
    assert mem[p..r.next] == mem[p..f.next] + mem[f.next..r.next];
  }

  /** Parsing inverts writing: the four strings, the flags and the size come back. */
  lemma RoundTrip(mem: seq<Byte>, f: MountArgv, limit: nat)
    requires |f.flags| == FLAG_BYTES && AllNulFree(Texts(f))
    requires f.start + |Image(f)| <= limit <= |mem| && mem[f.start..f.start + |Image(f)|] == Image(f)
    ensures Parse(mem, f.start, limit)
         == Valid(f.(fossilSize := |Image(f)|, remnantSize := RemnantSize(mem, f.start + |Image(f)|, limit)))
  {
    ReadsBack(mem, f.start, limit, Texts(f), f.flags, Image(f));
    assert IsRead(mem, f.start, limit, Texts(f), f.flags, |Image(f)|);
  }

  lemma ReadsBack(mem: seq<Byte>, p: nat, limit: nat, texts: seq<Text>, flags: seq<Byte>, image: seq<Byte>)
    requires |texts| == STRINGS && AllNulFree(texts) && |flags| == FLAG_BYTES && image == Joined(texts) + flags
    requires p + |image| <= limit <= |mem| && mem[p..p + |image|] == image
    ensures IsRead(mem, p, limit, texts, flags, |image|)
  {
    var joined := Joined(texts);
    FieldsOfImage(mem, p, limit, texts, flags, joined);
    ReadsFields(mem, p, limit, texts, p + |joined|, flags, |image|);
  }

  /** Parsing gives these strings and flags, of that size together. */
  ghost predicate IsRead(mem: seq<Byte>, p: nat, limit: nat, texts: seq<Text>, flags: seq<Byte>, size: nat)
    requires |texts| == STRINGS && p + size <= limit <= |mem|
  {
    Parse(mem, p, limit)
    == Valid(MountArgv(p, texts[0], texts[1], texts[2], texts[3], flags, size, RemnantSize(mem, p + size, limit)))
  }

  lemma FieldsOfImage(mem: seq<Byte>, p: nat, limit: nat, texts: seq<Text>, flags: seq<Byte>, joined: seq<Byte>)
    requires AllNulFree(texts) && joined == Joined(texts) && p + |joined| + |flags| <= limit <= |mem|
    requires mem[p..p + |joined + flags|] == joined + flags
    ensures var next := p + |joined|; mem[next..next + |flags|] == flags
    ensures FieldsAt(mem, p, limit, |texts|) == Fields(texts, p + |joined|)
  {
    ImageParts(mem, p, joined, flags);
    ReadsJoined(mem, p, limit, texts, joined);
  }

  lemma ReadsFields(mem: seq<Byte>, p: nat, limit: nat, texts: seq<Text>, next: nat, flags: seq<Byte>, size: nat)
    requires |texts| == STRINGS && p <= next && p + size == next + |flags| && p + size <= limit <= |mem|
    requires |flags| == FLAG_BYTES && mem[next..next + |flags|] == flags
    requires FieldsAt(mem, p, limit, |texts|) == Fields(texts, next)
    ensures IsRead(mem, p, limit, texts, flags, size)
  {
    ParsesAs(mem, p, limit, |texts|, Fields(texts, next));
    ReadsRest(mem, p, limit, texts, next, flags);
  }

  /** Parsing is what comes of the fields. */
  lemma ParsesAs(mem: seq<Byte>, p: nat, limit: nat, n: nat, r: FieldList)
    requires p < limit <= |mem| && n == STRINGS && FieldsAt(mem, p, limit, n) == r
    ensures Parse(mem, p, limit) == FossilFrom(mem, p, limit, r)
  {
  }

  lemma ReadsRest(mem: seq<Byte>, p: nat, limit: nat, texts: seq<Text>, next: nat, flags: seq<Byte>)
    requires |texts| == STRINGS && p <= next && next + |flags| <= limit <= |mem|
    requires |flags| == FLAG_BYTES && mem[next..next + |flags|] == flags
    ensures var end := next + |flags|;
            FossilFrom(mem, p, limit, Fields(texts, next))
            == Valid(MountArgv(p, texts[0], texts[1], texts[2], texts[3], flags, end - p, RemnantSize(mem, end, limit)))
  {
  }

  lemma ImageParts(mem: seq<Byte>, p: nat, a: seq<Byte>, b: seq<Byte>)
    requires p + |a + b| <= |mem| && mem[p..p + |a + b|] == a + b
    ensures mem[p..p + |a|] == a && mem[p + |a|..p + |a| + |b|] == b
  {
    var ab := a + b;
    var there := mem[p..p + |ab|];
    assert mem[p..p + |a|] == there[..|a|] == a;
    assert mem[p + |a|..p + |a| + |b|] == there[|a|..] == b;
  }

  /** Writing inverts parsing: what was parsed is, byte for byte, the image of the result, its
      strings hold no NUL, and fossil and remnant lie in front of the limit. */
  ghost predicate IsParsed(mem: seq<Byte>, start: nat, limit: nat, f: MountArgv) {
    && f.start == start && |f.flags| == FLAG_BYTES && AllNulFree(Texts(f))
    && f.fossilSize == |Image(f)| && start + f.fossilSize + f.remnantSize <= limit <= |mem|
    && mem[start..start + f.fossilSize] == Image(f)
    && f.remnantSize == RemnantSize(mem, start + f.fossilSize, limit)
  }

  lemma ParsedIsImage(mem: seq<Byte>, start: nat, limit: nat)
    requires limit <= |mem| && Parse(mem, start, limit).Valid?
    ensures IsParsed(mem, start, limit, Parse(mem, start, limit).argv)
  {
    var r := FieldsAt(mem, start, limit, STRINGS);
    ParsesAs(mem, start, limit, STRINGS, r);
    JoinedRead(mem, start, limit, STRINGS);
    RestIsImage(mem, start, limit, r);
  }

  lemma RestIsImage(mem: seq<Byte>, start: nat, limit: nat, r: FieldList)
    requires start <= limit <= |mem| && r.Fields? && |r.texts| == STRINGS && start <= r.next <= limit
    requires AllNulFree(r.texts) && mem[start..r.next] == Joined(r.texts)
    requires FossilFrom(mem, start, limit, r).Valid?
    ensures IsParsed(mem, start, limit, FossilFrom(mem, start, limit, r).argv)
  {
    var f := FossilFrom(mem, start, limit, r).argv;
    assert Texts(f) == r.texts;
    SplitAt(mem, start, r.next, r.next + FLAG_BYTES);
    assert Image(f) == mem[start..r.next + FLAG_BYTES];
  }

  lemma SplitAt(mem: seq<Byte>, a: nat, b: nat, c: nat)
    requires a <= b <= c <= |mem|
    ensures mem[a..c] == mem[a..b] + mem[b..c]
  {
  }

  // ---------- the spoof ----------

  lemma SameDoubleNul(a: seq<Byte>, b: seq<Byte>, from: nat, limit: nat)
    requires from <= limit <= |a| && limit <= |b| && a[from..limit] == b[from..limit]
    ensures FindDoubleNul(a, from, limit) == FindDoubleNul(b, from, limit)
  {
    assert forall i :: from <= i < limit ==> a[i] == a[from..limit][i - from] == b[from..limit][i - from] == b[i];
  }

  ghost predicate SameOutside(a: seq<Byte>, b: seq<Byte>, low: nat, high: nat) {
    |a| == |b| && forall i :: 0 <= i < |a| && !(low <= i < high) ==> a[i] == b[i]
  }

  lemma OverlayFrame(mem: seq<Byte>, start: nat, extent: nat, image: seq<Byte>)
    requires start + extent <= |mem| && |image| <= extent
    ensures var after := Overlaid(mem, start, extent, image);
            && SameOutside(mem, after, start, start + extent) && after[start..start + |image|] == image
            && forall i :: start + |image| <= i < start + extent ==> after[i] == 0
  {
  }

  /** Behind an image that fits, the first double NUL is right at its end, or there is none. */
  lemma OverlayLeavesNoRemnant(mem: seq<Byte>, start: nat, size: nat, extent: nat, image: seq<Byte>, limit: nat)
    requires size <= extent && start + extent <= limit <= |mem| && |image| <= extent
    requires extent - size == RemnantSize(mem, start + size, limit)
    ensures RemnantSize(Overlaid(mem, start, extent, image), start + |image|, limit) == 0
  {
    OverlayFrame(mem, start, extent, image);
    NoRemnant(mem, Overlaid(mem, start, extent, image), start + size, start + |image|, start + extent, limit);
  }

  lemma NoRemnant(mem: seq<Byte>, after: seq<Byte>, from: nat, end: nat, oldEnd: nat, limit: nat)
    requires end <= oldEnd <= limit <= |mem| == |after| && from <= oldEnd
    requires mem[oldEnd..limit] == after[oldEnd..limit] && forall i :: end <= i < oldEnd ==> after[i] == 0
    requires oldEnd - from == RemnantSize(mem, from, limit)
    ensures RemnantSize(after, end, limit) == 0
  {
    SameDoubleNul(mem, after, oldEnd, limit);
    if oldEnd - end == 1 && oldEnd < limit && after[oldEnd] != 0 {
      assert FindDoubleNul(after, end, limit) == FindDoubleNul(after, oldEnd, limit);
    }
  }

  /** When the clean fossil fits in the old one and its remnant, what is parsed there next is the
      clean entry with the old flags and no remnant. */
  lemma SpoofReparses(mem: seq<Byte>, limit: nat, f: MountArgv, clean: MountArgv, extent: nat, image: seq<Byte>)
    requires f.start + extent <= limit <= |mem| && extent == f.fossilSize + f.remnantSize
    requires f.remnantSize == RemnantSize(mem, f.start + f.fossilSize, limit)
    requires clean.start == f.start && |clean.flags| == FLAG_BYTES && AllNulFree(Texts(clean))
    requires image == Image(clean) && clean.fossilSize == |image| <= extent && clean.remnantSize == 0
    ensures Parse(Overlaid(mem, f.start, extent, image), f.start, limit) == Valid(clean)
  {
    var after := Overlaid(mem, f.start, extent, image);
    OverlayFrame(mem, f.start, extent, image);
    OverlayLeavesNoRemnant(mem, f.start, f.fossilSize, extent, image, limit);
    RoundTrip(after, clean, limit);
  }

  /** A fossil that says the truth about its own size and can be read back. */
  ghost predicate WellMade(f: MountArgv) {
    |f.flags| == FLAG_BYTES && AllNulFree(Texts(f)) && f.fossilSize == |Image(f)| && f.remnantSize == 0
  }

  /** Wherever the image of a fossil is, its own strings are read back exactly if they hold no NUL. */
  lemma ReadsBackExactly(mem: seq<Byte>, f: MountArgv, limit: nat)
    requires |f.flags| == FLAG_BYTES
    requires f.start + |Image(f)| <= limit <= |mem| && mem[f.start..f.start + |Image(f)|] == Image(f)
    ensures Parse(mem, f.start, limit).Valid? && Texts(Parse(mem, f.start, limit).argv) == Texts(f) <==> AllNulFree(Texts(f))
  {
    if AllNulFree(Texts(f)) {
      RoundTrip(mem, f, limit);
      SameTexts(f, |Image(f)|, RemnantSize(mem, f.start + |Image(f)|, limit));
    }
    if Parse(mem, f.start, limit).Valid? {
      ParsedIsImage(mem, f.start, limit);
    }
  }

  lemma SameTexts(f: MountArgv, size: nat, remnant: nat)
    ensures Texts(f.(fossilSize := size, remnantSize := remnant)) == Texts(f)
  {
  }

  /** A fossil made from a mount entry knows its own size; written anywhere, it is what is parsed
      there, but for the remnant, exactly if the entry's strings hold no NUL. */
  lemma CleanReadsBackExactly(mem: seq<Byte>, limit: nat, e: MountInfoEntry, start: nat, flags: seq<Byte>)
    requires |flags| == FLAG_BYTES
    requires var image := Image(Clean(e, start, flags));
             start + |image| <= limit <= |mem| && mem[start..start + |image|] == image
    ensures var clean := Clean(e, start, flags);
            && clean.fossilSize == |Image(clean)|
            && (AllNulFree([e.source, e.target, e.filesystemType, e.mountOptions]) <==>
                  Parse(mem, start, limit) == Valid(clean.(remnantSize := RemnantSize(mem, start + clean.fossilSize, limit))))
  {
    var clean := Clean(e, start, flags);
    CleanSize(e, start, flags);
    ReadsBackExactly(mem, clean, limit);
    if AllNulFree(Texts(clean)) {
      RoundTrip(mem, clean, limit);
    }
    SameTexts(clean, clean.fossilSize, RemnantSize(mem, start + clean.fossilSize, limit));
  }

  lemma CleanIsWellMade(e: MountInfoEntry, start: nat, flags: seq<Byte>)
    requires |flags| == FLAG_BYTES && AllNulFree([e.source, e.target, e.filesystemType, e.mountOptions])
    ensures WellMade(Clean(e, start, flags))
  {
    CleanSize(e, start, flags);
  }

  lemma ParsedExtent(mem: seq<Byte>, start: nat, limit: nat, f: MountArgv)
    requires limit <= |mem| && Parse(mem, start, limit) == Valid(f)
    ensures start + f.fossilSize + f.remnantSize <= limit && |f.flags| == FLAG_BYTES
    ensures f.remnantSize == RemnantSize(mem, start + f.fossilSize, limit)
  {
    ParsedIsImage(mem, start, limit);
  }

  /** When the fossil that replaces a parsed one fits, nothing outside the old fossil and its
      remnant changes, and it is what is parsed there next. */
  lemma SpoofIsConfined(mem: seq<Byte>, limit: nat, f: MountArgv, clean: MountArgv, after: seq<Byte>)
    requires limit <= |mem| && Parse(mem, f.start, limit) == Valid(f)
    requires WellMade(clean) && clean.start == f.start && clean.fossilSize <= f.fossilSize + f.remnantSize
    requires f.start + f.fossilSize + f.remnantSize <= |mem| ==> after == Spoofed(mem, f, clean)
    ensures SameOutside(mem, after, f.start, f.start + f.fossilSize + f.remnantSize)
    ensures f.start + f.fossilSize + f.remnantSize <= limit && Parse(after, f.start, limit) == Valid(clean)
  {
    var extent, image := f.fossilSize + f.remnantSize, Image(clean);
    ParsedExtent(mem, f.start, limit, f);
    assert after == Overlaid(mem, f.start, extent, image);
    OverlayFrame(mem, f.start, extent, image);
    SpoofReparses(mem, limit, f, clean, extent, image);
  }

  /** What was parsed is there: the four strings in this order, each with its NUL, and the flags. */
  lemma ParsedBytes(mem: seq<Byte>, start: nat, limit: nat, f: MountArgv)
    requires limit <= |mem| && Parse(mem, start, limit) == Valid(f)
    ensures start + f.fossilSize + f.remnantSize <= limit && |f.flags| == 4
    ensures mem[start..start + f.fossilSize]
         == f.source + [0] + f.target + [0] + f.filesystemType + [0] + f.mountOptions + [0] + f.flags
    ensures 0 !in f.source && 0 !in f.target && 0 !in f.filesystemType && 0 !in f.mountOptions
  {
    ParsedIsImage(mem, start, limit);
    ImageIs(f);
    FourNulFree(f);
  }

  /** After a spoof the template is what is parsed there, string by string, with the flags there were;
      if it fits, without a remnant. */
  lemma SpoofShowsTemplate(before: seq<Byte>, f: MountArgv, e: MountInfoEntry, after: seq<Byte>, limit: nat)
    requires limit <= |before| && Parse(before, f.start, limit) == Valid(f) && ReplacedBy(before, f, e, after)
    requires f.start + |EntryBytes(e, f.flags)| <= limit
    requires 0 !in e.source && 0 !in e.target && 0 !in e.filesystemType && 0 !in e.mountOptions
    ensures Parse(after, f.start, limit).Valid?
    ensures var g := Parse(after, f.start, limit).argv;
            && g.source == e.source && g.target == e.target && g.filesystemType == e.filesystemType
            && g.mountOptions == e.mountOptions && g.flags == f.flags && g.fossilSize == |EntryBytes(e, f.flags)|
            && (g.fossilSize <= f.fossilSize + f.remnantSize ==> g.remnantSize == 0)
  {
    ParsedExtent(before, f.start, limit, f);
    FourNulFree(Clean(e, f.start, f.flags));
    EntryReadsBack(before, f, e, after, limit);
    if |EntryBytes(e, f.flags)| <= f.fossilSize + f.remnantSize {
      FittingSpoof(before, f, e, after, limit);
    }
  }

  lemma EntryReadsBack(before: seq<Byte>, f: MountArgv, e: MountInfoEntry, after: seq<Byte>, limit: nat)
    requires ReplacedBy(before, f, e, after) && f.start + |EntryBytes(e, f.flags)| <= limit <= |before|
    requires |f.flags| == FLAG_BYTES && AllNulFree(Texts(Clean(e, f.start, f.flags)))
    ensures Parse(after, f.start, limit).Valid?
    ensures var g := Parse(after, f.start, limit).argv;
            && g.source == e.source && g.target == e.target && g.filesystemType == e.filesystemType
            && g.mountOptions == e.mountOptions && g.flags == f.flags && g.fossilSize == |EntryBytes(e, f.flags)|
  {
    ImageThere(before, f, e, after);
    CleanImage(e, f.start, f.flags);
    RoundTrip(after, Clean(e, f.start, f.flags), limit);
  }

  lemma ImageThere(before: seq<Byte>, f: MountArgv, e: MountInfoEntry, after: seq<Byte>)
    requires ReplacedBy(before, f, e, after)
    ensures var bytes := EntryBytes(e, f.flags); after[f.start..f.start + |bytes|] == bytes
  {
  }

  lemma OneReplacement(before: seq<Byte>, f: MountArgv, e: MountInfoEntry, a: seq<Byte>, b: seq<Byte>)
    requires ReplacedBy(before, f, e, a) && ReplacedBy(before, f, e, b)
    ensures a == b
  {
    assert forall i :: 0 <= i < |a| ==> a[i] == b[i];
  }

  lemma FittingSpoof(before: seq<Byte>, f: MountArgv, e: MountInfoEntry, after: seq<Byte>, limit: nat)
    requires limit <= |before| && Parse(before, f.start, limit) == Valid(f) && ReplacedBy(before, f, e, after)
    requires |EntryBytes(e, f.flags)| <= f.fossilSize + f.remnantSize && AllNulFree(Texts(Clean(e, f.start, f.flags)))
    ensures Parse(after, f.start, limit) == Valid(Clean(e, f.start, f.flags))
  {
    var clean := Clean(e, f.start, f.flags);
    ParsedExtent(before, f.start, limit, f);
    CleanImage(e, f.start, f.flags);
    CleanSize(e, f.start, f.flags);
    SpoofedIsReplaced(before, f, e);
    OneReplacement(before, f, e, after, Spoofed(before, f, clean));
    SpoofIsConfined(before, limit, f, clean, after);
  }

  /** Nothing outside the old fossil and its remnant changes exactly if the clean fossil fits, or
      happens to find its own tail behind them. */
  lemma SpoofIsConfinedExactly(mem: seq<Byte>, start: nat, extent: nat, image: seq<Byte>)
    requires start + extent <= |mem| && start + |image| <= |mem|
    ensures SameOutside(mem, Overlaid(mem, start, extent, image), start, start + extent)
        <==> |image| <= extent || image[extent..] == mem[start + extent..start + |image|]
  {
    var after := Overlaid(mem, start, extent, image);
    if |image| > extent {
      var tail, there := image[extent..], mem[start + extent..start + |image|];
      forall i | start + extent <= i < start + |image|
        ensures after[i] == tail[i - start - extent] && mem[i] == there[i - start - extent]
      {
      }
      if tail != there {
        var k :| 0 <= k < |tail| && tail[k] != there[k];
        assert after[start + extent + k] == tail[k];
      }
    }
  }
}
