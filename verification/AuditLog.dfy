/**
 * The hash-chained audit log of src/audit/audit.c: its entries, the verifier and the
 * appender. JSON, SHA-256 and ML-DSA are parameters; only what Faithful says is assumed.
 */
module AuditLog {
  import opened Common

  // ----- JSON objects as cJSON holds them: an ordered list of items -----

  /** Item names: the eleven the code uses, and all others. */
  datatype RawKey =
    | Version | Seq | Timestamp | ActorUid | Action | Target | Outcome | Detail
    | PreviousHash | Hash | Signature | OtherKey(name: string)

  const Names: set<string> :=
    {"version", "seq", "timestamp", "actor_uid", "action", "target", "outcome", "detail",
     "previous_hash", "hash", "signature"}

  type Key = k: RawKey | k.OtherKey? ==> k.name !in Names witness Version

  type Items = seq<(Key, Value)>

  /** A number is its floor and whatever encodes the fraction. */
  datatype Value = Str(s: string) | Num(floor: int, fraction: nat) | Other(text: string)

  datatype Json = Object(items: Items) | NotObject(text: string)

  /** The first item with this key. */
  function Get(items: Items, key: Key): (r: Option<Value>) {
    if items == [] then None else if items[0].0 == key then Some(items[0].1) else Get(items[1..], key)
  }

  /** Without the first item with this key. */
  function Remove(items: Items, key: Key): (r: Items) {
    if items == [] then [] else if items[0].0 == key then items[1..] else [items[0]] + Remove(items[1..], key)
  }

  function GetString(items: Items, key: Key): (r: Option<string>) {
    match Get(items, key) case Some(Str(s)) => Some(s) case _ => None
  }

  function GetU64(items: Items, key: Key): (r: nat) {
    match Get(items, key) case Some(Num(n, _)) => if n >= 0 then n else 0 case _ => 0
  }

  // ----- the libraries -----

  datatype Library = Library(
    render: Json -> string, parse: string -> Option<Json>,
    hash: string -> string, verify: (string, string) -> bool)

  /** Printing is one line and parses back; a hash is 64 characters. */
  ghost predicate Faithful(lib: Library) {
    && (forall j :: lib.parse(lib.render(j)) == Some(j))
    && (forall j :: '\n' !in lib.render(j))
    && (forall m :: |lib.hash(m)| == 64)
  }

  const LINE_MAX := 65536

  // ----- one entry -----

  /** What is hashed: the entry without its hash and signature. */
  function Payload(lib: Library, items: Items): (r: string) {
    lib.render(Object(Remove(Remove(items, Hash), Signature)))
  }

  function HashOf(lib: Library, items: Items): (r: string) {
    lib.hash(Payload(lib, items))
  }

  predicate EntryValid(lib: Library, entry: Json, expectedSeq: nat, expectedPrevious: string) {
    && entry.Object?
    && var items := entry.items;
    && GetU64(items, Version) == 1
    && GetU64(items, Seq) == expectedSeq
    && GetString(items, PreviousHash) == Some(expectedPrevious)
    && GetString(items, Hash).Some? && |GetString(items, Hash).value| == 64
    && GetU64(items, Timestamp) != 0
    && GetString(items, Action).Some? && GetString(items, Target).Some?
    && GetString(items, Outcome).Some? && GetString(items, Detail).Some?
    && Get(items, ActorUid).Some?
    && GetString(items, Hash).value == HashOf(lib, items)
    && match GetString(items, Signature)
       case Some(sig) => sig == "" || lib.verify(HashOf(lib, items), sig)
       case None => true
  }

  // ----- the whole file -----

  /** Where the first line ends, or the length of the text if it does not. */
  function LineEnd(text: string): (k: nat)
    ensures k <= |text|
    ensures '\n' !in text[..k] && (k < |text| ==> text[k] == '\n')
  {
    if text == "" || text[0] == '\n' then 0 else 1 + LineEnd(text[1..])
  }

  /** The entry on the first line, if that line is terminated, short enough and parses. */
  function FirstEntry(lib: Library, text: string): (r: Option<Json>) {
    var k := LineEnd(text);
    if k == |text| || k + 1 > LINE_MAX then None else lib.parse(text[..k])
  }

  /** Next sequence number and last hash after every line has checked out, or None. */
  function Scan(lib: Library, text: string, expectedSeq: nat, previous: string): (r: Option<(nat, string)>)
    decreases |text|
  {
    if text == "" then Some((expectedSeq, previous))
    else
      match FirstEntry(lib, text)
      case None => None
      case Some(entry) =>
        if EntryValid(lib, entry, expectedSeq, previous)
        then Scan(lib, text[LineEnd(text) + 1..], expectedSeq + 1, HashOf(lib, entry.items))
        else None
  }

  /** audit_verify on a file that exists and reads without error. */
  method Verify(lib: Library, text: string) returns (ok: bool, entries: nat)
    ensures ok == Scan(lib, text, 1, "").Some?
    ensures ok ==> entries + 1 == Scan(lib, text, 1, "").value.0
    ensures !ok ==> entries == 0
  {
    var expectedSeq, previous, rest := 1, "", text;
    while rest != ""
      invariant expectedSeq >= 1
      invariant Scan(lib, rest, expectedSeq, previous) == Scan(lib, text, 1, "")
      decreases |rest|
    {
      var k := LineEnd(rest);
      if k == |rest| || k + 1 > LINE_MAX {
        return false, 0;
      }
      var entry := lib.parse(rest[..k]);
      if entry.None? || !EntryValid(lib, entry.value, expectedSeq, previous) {
        return false, 0;
      }
      previous := HashOf(lib, entry.value.items);
      expectedSeq := expectedSeq + 1;
      rest := rest[k + 1..];
    }
    return true, expectedSeq - 1;
  }

  lemma {:induction false} ScanAppend(lib: Library, a: string, b: string, n: nat, previous: string)
    requires Scan(lib, a, n, previous).Some?
    ensures var r := Scan(lib, a, n, previous).value;
      Scan(lib, a + b, n, previous) == Scan(lib, b, r.0, r.1)
    decreases |a|
  {
    hide EntryValid, HashOf;
    if a == "" {
      assert a + b == b;
    } else {
      var k := LineEnd(a);
      assert FirstEntry(lib, a).Some? && k < |a|;
      ValidIsObject(lib, FirstEntry(lib, a).value, n, previous);
      LineEndAppend(a, b);
      assert (a + b)[..k] == a[..k];
      assert (a + b)[k + 1..] == a[k + 1..] + b;
      var items := FirstEntry(lib, a).value.items;
      ScanAppend(lib, a[k + 1..], b, n + 1, HashOf(lib, items));
    }
  }

  lemma ValidIsObject(lib: Library, entry: Json, n: nat, previous: string)
    requires EntryValid(lib, entry, n, previous)
    ensures entry.Object?
  {
  }

  lemma {:induction false} LineEndAppend(a: string, b: string)
    requires LineEnd(a) < |a|
    ensures LineEnd(a + b) == LineEnd(a)
    decreases |a|
  {
    if a[0] != '\n' {
      assert (a + b)[1..] == a[1..] + b;
      LineEndAppend(a[1..], b);
    }
  }

  lemma {:induction false} LineEndIs(line: string, rest: string)
    requires '\n' !in line
    ensures LineEnd(line + "\n" + rest) == |line|
    decreases |line|
  {
    var text := line + "\n" + rest;
    if line != "" {
      assert text[0] == line[0] && text[1..] == line[1..] + "\n" + rest;
      LineEndIs(line[1..], rest);
    }
  }

  /** An unterminated last line is never accepted. */
  lemma ScanTorn(lib: Library, tail: string, n: nat, previous: string)
    requires tail != "" && '\n' !in tail
    ensures Scan(lib, tail, n, previous) == None
  {
    assert LineEnd(tail) == |tail|;
  }

  // ----- the entry an appender writes -----

  datatype Record = Record(actorUid: int, action: string, target: string, outcome: string, detail: string)

  function BaseItems(rec: Record, time: int, next: nat, previous: string): (r: Items) {
    [(Version, Num(1, 0)), (Seq, Num(next, 0)), (Timestamp, Num(time, 0)), (ActorUid, Num(rec.actorUid, 0)),
     (Action, Str(rec.action)), (Target, Str(rec.target)), (Outcome, Str(rec.outcome)),
     (Detail, Str(rec.detail)), (PreviousHash, Str(previous))]
  }

  /** The hash of an entry before the hash is added to it. */
  function NewHash(lib: Library, rec: Record, time: int, next: nat, previous: string): (r: string) {
    HashOf(lib, BaseItems(rec, time, next, previous))
  }

  /** The items added once the hash is known. */
  function Seal(hash: string, sig: Option<string>): (r: Items) {
    match sig case Some(s) => [(Hash, Str(hash)), (Signature, Str(s))] case None => [(Hash, Str(hash))]
  }

  function NewEntry(lib: Library, rec: Record, time: int, next: nat, previous: string, sig: Option<string>): (j: Json)
    ensures j.Object?
  {
    Object(BaseItems(rec, time, next, previous) + Seal(NewHash(lib, rec, time, next, previous), sig))
  }

  lemma NewEntryPayload(lib: Library, rec: Record, time: int, next: nat, previous: string, sig: Option<string>)
    ensures HashOf(lib, NewEntry(lib, rec, time, next, previous, sig).items) == NewHash(lib, rec, time, next, previous)
  {
    var base, tail := BaseItems(rec, time, next, previous), Seal(NewHash(lib, rec, time, next, previous), sig);
    NoKey(base, tail, Hash);
    NoKey(base, tail[1..], Signature);
    NoKey(base, [], Hash);
    NoKey(base, [], Signature);
    assert base + [] == base;
    assert Remove(tail, Hash) == tail[1..];
    assert Remove(tail[1..], Signature) == [];
  }

  /** Keys absent from the front are looked up and removed behind it. */
  lemma {:induction false} NoKey(front: Items, back: Items, key: Key)
    requires forall i :: 0 <= i < |front| ==> front[i].0 != key
    ensures Get(front + back, key) == Get(back, key)
    ensures Remove(front + back, key) == front + Remove(back, key)
    decreases |front|
  {
    if front == [] {
      assert front + back == back;
      assert front + Remove(back, key) == Remove(back, key);
    } else {
      assert (front + back)[1..] == front[1..] + back;
      NoKey(front[1..], back, key);
      assert [front[0]] + (front[1..] + Remove(back, key)) == front + Remove(back, key);
    }
  }

  /** Every field of a new entry reads back as it was set. */
  lemma NewEntryFields(lib: Library, rec: Record, time: int, next: nat, previous: string, sig: Option<string>)
    ensures var items := NewEntry(lib, rec, time, next, previous, sig).items;
      && Get(items, Version) == Some(Num(1, 0)) && Get(items, Seq) == Some(Num(next, 0))
      && Get(items, Timestamp) == Some(Num(time, 0)) && Get(items, ActorUid) == Some(Num(rec.actorUid, 0))
      && Get(items, Action) == Some(Str(rec.action)) && Get(items, Target) == Some(Str(rec.target))
      && Get(items, Outcome) == Some(Str(rec.outcome)) && Get(items, Detail) == Some(Str(rec.detail))
      && Get(items, PreviousHash) == Some(Str(previous))
  {
    hide NewHash, NewEntry, Get;
    BaseItemsFound(lib, rec, time, next, previous, sig);
    var b := BaseItems(rec, time, next, previous);
    assert b[0].0 == Version && b[1].0 == Seq && b[2].0 == Timestamp && b[3].0 == ActorUid && b[4].0 == Action;
    assert b[5].0 == Target && b[6].0 == Outcome && b[7].0 == Detail && b[8].0 == PreviousHash;
  }

  lemma BaseItemsFound(lib: Library, rec: Record, time: int, next: nat, previous: string, sig: Option<string>)
    ensures var items, b := NewEntry(lib, rec, time, next, previous, sig).items, BaseItems(rec, time, next, previous);
      |b| == 9 && forall i :: 0 <= i < 9 ==> Get(items, b[i].0) == Some(b[i].1)
  {
    hide NewHash, NewEntry, Get;
    var items, b := NewEntry(lib, rec, time, next, previous, sig).items, BaseItems(rec, time, next, previous);
    AllItemsFound(lib, rec, time, next, previous, sig);
    ItemsInOrder(lib, rec, time, next, previous, sig);
    forall i | 0 <= i < 9
      ensures Get(items, b[i].0) == Some(b[i].1)
    {
      assert items[i] == items[..9][i];
    }
  }

  lemma NewEntrySeal(lib: Library, rec: Record, time: int, next: nat, previous: string, sig: Option<string>)
    ensures var items := NewEntry(lib, rec, time, next, previous, sig).items;
      && Get(items, Hash) == Some(Str(NewHash(lib, rec, time, next, previous)))
      && Get(items, Signature) == (match sig case Some(s) => Some(Str(s)) case None => None)
  {
    hide NewHash, NewEntry, Get;
    var items := NewEntry(lib, rec, time, next, previous, sig).items;
    AllItemsFound(lib, rec, time, next, previous, sig);
    ItemsInOrder(lib, rec, time, next, previous, sig);
    assert items[9] == items[9..][0];
    if sig.Some? {
      assert items[10] == items[9..][1];
    } else {
      NoSignature(lib, rec, time, next, previous, sig);
    }
  }

  lemma NoSignature(lib: Library, rec: Record, time: int, next: nat, previous: string, sig: Option<string>)
    requires sig.None?
    ensures Get(NewEntry(lib, rec, time, next, previous, sig).items, Signature) == None
  {
    hide NewHash, NewEntry;
    var items := NewEntry(lib, rec, time, next, previous, sig).items;
    RankAt(lib, rec, time, next, previous, sig);
    ItemsInOrder(lib, rec, time, next, previous, sig);
    NoKey(items, [], Signature);
    assert items + [] == items;
  }

  lemma ItemsInOrder(lib: Library, rec: Record, time: int, next: nat, previous: string, sig: Option<string>)
    ensures var items := NewEntry(lib, rec, time, next, previous, sig).items;
      && |items| == (if sig.Some? then 11 else 10)
      && items[..9] == BaseItems(rec, time, next, previous)
      && items[9..] == Seal(NewHash(lib, rec, time, next, previous), sig)
  {
    hide NewHash;
  }

  lemma AllItemsFound(lib: Library, rec: Record, time: int, next: nat, previous: string, sig: Option<string>)
    ensures var items := NewEntry(lib, rec, time, next, previous, sig).items;
      forall i :: 0 <= i < |items| ==> Get(items, items[i].0) == Some(items[i].1)
  {
    hide NewEntry, Get;
    var items := NewEntry(lib, rec, time, next, previous, sig).items;
    RankAt(lib, rec, time, next, previous, sig);
    forall i: nat | i < |items|
      ensures Get(items, items[i].0) == Some(items[i].1)
    {
      GetAt(items, i);
    }
  }

  /** Position of a key in a new entry. */
  function Rank(key: Key): (r: nat) {
    match key
    case Version => 0 case Seq => 1 case Timestamp => 2 case ActorUid => 3 case Action => 4 case Target => 5
    case Outcome => 6 case Detail => 7 case PreviousHash => 8 case Hash => 9 case Signature => 10 case OtherKey(_) => 11
  }

  lemma RankAt(lib: Library, rec: Record, time: int, next: nat, previous: string, sig: Option<string>)
    ensures var items := NewEntry(lib, rec, time, next, previous, sig).items;
      forall i :: 0 <= i < |items| ==> Rank(items[i].0) == i
  {
    hide NewHash;
  }

  lemma {:induction false} GetAt(items: Items, i: nat)
    requires i < |items| && forall k :: 0 <= k < i ==> items[k].0 != items[i].0
    ensures Get(items, items[i].0) == Some(items[i].1)
    decreases i
  {
    if i > 0 {
      GetAt(items[1..], i - 1);
    }
  }

  function NewLine(lib: Library, rec: Record, time: int, next: nat, previous: string, sig: Option<string>): (r: string) {
    lib.render(NewEntry(lib, rec, time, next, previous, sig)) + "\n"
  }

  /** The signature, if there is one, is what verification will accept. */
  predicate SignatureOk(lib: Library, hash: string, sig: Option<string>) {
    sig.Some? ==> sig.value == "" || lib.verify(hash, sig.value)
  }

  /** What makes a new entry good: the clock is past the epoch and its signature, if any, verifies. */
  predicate Good(lib: Library, rec: Record, time: int, next: nat, previous: string, sig: Option<string>) {
    time > 0 && SignatureOk(lib, NewHash(lib, rec, time, next, previous), sig)
  }

  /** What the appender builds the verifier accepts exactly then. */
  lemma NewEntryValidIffGood(lib: Library, rec: Record, time: int, next: nat, previous: string, sig: Option<string>)
    requires Faithful(lib)
    ensures EntryValid(lib, NewEntry(lib, rec, time, next, previous, sig), next, previous)
       <==> Good(lib, rec, time, next, previous, sig)
  {
    hide Get, NewHash, HashOf;
    HashLength(lib, rec, time, next, previous);
    NewEntryFields(lib, rec, time, next, previous, sig);
    NewEntrySeal(lib, rec, time, next, previous, sig);
    NewEntryPayload(lib, rec, time, next, previous, sig);
  }

  lemma HashLength(lib: Library, rec: Record, time: int, next: nat, previous: string)
    requires Faithful(lib)
    ensures |NewHash(lib, rec, time, next, previous)| == 64
  {
  }

  /** One whole new line moves the scan on by one entry, or ends it when the entry is not good. */
  lemma NewLineScans(lib: Library, rec: Record, time: int, next: nat, previous: string, sig: Option<string>)
    requires Faithful(lib) && |NewLine(lib, rec, time, next, previous, sig)| <= LINE_MAX
    ensures Scan(lib, NewLine(lib, rec, time, next, previous, sig), next, previous) ==
      if Good(lib, rec, time, next, previous, sig)
      then Some((next + 1, NewHash(lib, rec, time, next, previous))) else None
  {
    hide EntryValid, HashOf, NewHash, NewEntry, Good;
    var entry := NewEntry(lib, rec, time, next, previous, sig);
    var text := lib.render(entry);
    NewEntryValidIffGood(lib, rec, time, next, previous, sig);
    NewEntryPayload(lib, rec, time, next, previous, sig);
    LineEndIs(text, "");
    var line := text + "\n";
    assert line + "" == line && line[..|text|] == text && line[|text| + 1..] == "";
    if EntryValid(lib, entry, next, previous) {
      ValidIsObject(lib, entry, next, previous);
    }
  }

  // ----- any number of recorders under one exclusive lock -----

  datatype Pc = Idle | Opening | Locked | Ready(next: nat, previous: string) | Closing

  /**
   * The shared file, the flock holder, the recorders, and a history: the whole lines written, and
   * whether any write was cut short or any whole line was of an entry that is not good.
   */
  datatype Sys = Sys(file: string, lock: Option<nat>, pcs: map<nat, Pc>, completed: nat, torn: bool, spoiled: bool)

  function PcOf(pcs: map<nat, Pc>, p: nat): (r: Pc) {
    if p in pcs then pcs[p] else Idle
  }

  predicate Holds(pc: Pc) {
    pc.Locked? || pc.Ready? || pc.Closing?
  }

  datatype Step =
    | Open(p: nat)
    | Lock(p: nat)
    | LockFails(p: nat)
    | Check(p: nat)
    | Append(p: nat, rec: Record, time: int, sig: Option<string>, written: nat)
    | GiveUp(p: nat)
    | Release(p: nat)
    | Crash(p: nat)

  predicate Enabled(lib: Library, s: Sys, st: Step) {
    var pc := PcOf(s.pcs, st.p);
    match st
    case Open(_) => pc.Idle?
    case Lock(_) => pc.Opening? && s.lock.None?
    case LockFails(_) => pc.Opening?
    case Check(_) => pc.Locked?
    case Append(_, rec, time, sig, written) =>
      && pc.Ready?
      && written <= |NewLine(lib, rec, time, pc.next, pc.previous, sig)| <= LINE_MAX
    case GiveUp(_) => pc.Ready?
    case Release(_) => pc.Closing?
    case Crash(_) => true
  }

  function Goto(s: Sys, p: nat, pc: Pc): (r: Sys) {
    s.(pcs := s.pcs[p := pc])
  }

  function Next(lib: Library, s: Sys, st: Step): (res: Sys)
    requires Enabled(lib, s, st)
  {
    var p, pc := st.p, PcOf(s.pcs, st.p);
    match st
    case Open(_) => Goto(s, p, Opening)
    case Lock(_) => Goto(s, p, Locked).(lock := Some(p))
    case LockFails(_) => Goto(s, p, Idle)
    case Check(_) =>
      (match Scan(lib, s.file, 1, "") case Some(r) => Goto(s, p, Ready(r.0, r.1)) case None => Goto(s, p, Closing))
    case Append(_, rec, time, sig, written) =>
      var line := NewLine(lib, rec, time, pc.next, pc.previous, sig);
      Goto(s, p, Closing).(
        file := s.file + line[..written],
        completed := s.completed + if written == |line| then 1 else 0,
        torn := s.torn || 0 < written < |line|,
        spoiled := s.spoiled || (written == |line| && !Good(lib, rec, time, pc.next, pc.previous, sig)))
    case GiveUp(_) => Goto(s, p, Closing)
    case Release(_) => Goto(s, p, Idle).(lock := None)
    case Crash(_) => Goto(s, p, Idle).(lock := if Holds(pc) then None else s.lock)
  }

  /** A run tries any steps in any order; a step that is not enabled does nothing. */
  function Run(lib: Library, s: Sys, steps: seq<Step>): (r: Sys)
    decreases |steps|
  {
    if steps == [] then s
    else Run(lib, if Enabled(lib, s, steps[0]) then Next(lib, s, steps[0]) else s, steps[1..])
  }

  /** A recorder inside the lock is its holder, and what it has read is still what is there. */
  ghost predicate Consistent(lib: Library, s: Sys, p: nat) {
    var pc := PcOf(s.pcs, p);
    && (Holds(pc) ==> s.lock == Some(p))
    && (pc.Ready? ==> Scan(lib, s.file, 1, "") == Some((pc.next, pc.previous)))
  }

  /** The log verifies and has grown by the completed writes, unless a write was cut short or spoiled it. */
  ghost predicate Inv(lib: Library, s: Sys, start: nat) {
    && (forall p: nat :: Consistent(lib, s, p))
    && if s.torn || s.spoiled then Scan(lib, s.file, 1, "") == None
       else Scan(lib, s.file, 1, "").Some? && Scan(lib, s.file, 1, "").value.0 == start + s.completed + 1
  }

  lemma AppendKeepsInv(lib: Library, s: Sys, start: nat, st: Step)
    requires Faithful(lib) && Inv(lib, s, start) && st.Append? && Enabled(lib, s, st)
    ensures Inv(lib, Next(lib, s, st), start)
  {
    hide Scan, NewEntry, NewHash, Faithful, Good;
    var pc := PcOf(s.pcs, st.p);
    var line := NewLine(lib, st.rec, st.time, pc.next, pc.previous, st.sig);
    var piece := line[..st.written];
    var t := Next(lib, s, st);
    assert Consistent(lib, s, st.p);
    forall q: nat
      ensures Consistent(lib, t, q)
    {
      assert Consistent(lib, s, q);
    }
    ScanAppend(lib, s.file, piece, 1, "");
    if st.written == |line| {
      assert piece == line;
      NewLineScans(lib, st.rec, st.time, pc.next, pc.previous, st.sig);
    } else if st.written == 0 {
      assert s.file + piece == s.file;
    } else {
      NoNewlineBefore(lib, NewEntry(lib, st.rec, st.time, pc.next, pc.previous, st.sig), st.written);
      ScanTorn(lib, piece, pc.next, pc.previous);
    }
  }

  lemma NoNewlineBefore(lib: Library, entry: Json, k: nat)
    requires Faithful(lib) && k <= |lib.render(entry)|
    ensures '\n' !in (lib.render(entry) + "\n")[..k]
  {
    assert (lib.render(entry) + "\n")[..k] == lib.render(entry)[..k];
  }

  lemma StepKeepsInv(lib: Library, s: Sys, start: nat, st: Step)
    requires Faithful(lib) && Inv(lib, s, start) && Enabled(lib, s, st)
    ensures Inv(lib, Next(lib, s, st), start)
  {
    hide Scan, NewLine, NewHash, Faithful, Good;
    if st.Append? {
      AppendKeepsInv(lib, s, start, st);
    } else {
      var t := Next(lib, s, st);
      assert Consistent(lib, s, st.p);
      forall q: nat
        ensures Consistent(lib, t, q)
      {
        assert Consistent(lib, s, q);
      }
    }
  }

  lemma {:induction false} RunKeepsInv(lib: Library, s: Sys, start: nat, steps: seq<Step>)
    requires Faithful(lib) && Inv(lib, s, start)
    ensures Inv(lib, Run(lib, s, steps), start)
    decreases |steps|
  {
    hide Inv, Next, Enabled, Faithful;
    if steps != [] {
      if Enabled(lib, s, steps[0]) {
        StepKeepsInv(lib, s, start, steps[0]);
        RunKeepsInv(lib, Next(lib, s, steps[0]), start, steps[1..]);
      } else {
        RunKeepsInv(lib, s, start, steps[1..]);
      }
    }
  }

  /** Nobody has opened the file yet. */
  function Fresh(file: string): (r: Sys) {
    Sys(file, None, map[], 0, false, false)
  }

  lemma FreshInv(lib: Library, file: string, start: nat)
    requires Scan(lib, file, 1, "").Some? && Scan(lib, file, 1, "").value.0 == start + 1
    ensures Inv(lib, Fresh(file), start)
  {
    hide Scan;
    forall q: nat
      ensures Consistent(lib, Fresh(file), q)
    {
    }
  }

  /**
   * From a log with `start` good entries, after any interleaving, the verifier accepts the file
   * with start plus the completed writes if and only if none was cut short or not good.
   */
  lemma LogStaysAccepted(lib: Library, file: string, start: nat, steps: seq<Step>)
    requires Faithful(lib) && Scan(lib, file, 1, "").Some? && Scan(lib, file, 1, "").value.0 == start + 1
    ensures var s := Run(lib, Fresh(file), steps);
      && (Scan(lib, s.file, 1, "").Some? <==> !s.torn && !s.spoiled)
      && (!s.torn && !s.spoiled ==> Scan(lib, s.file, 1, "").value.0 == start + s.completed + 1)
  {
    hide Scan, Run, Faithful;
    FreshInv(lib, file, start);
    RunKeepsInv(lib, Fresh(file), start, steps);
  }

  /** A file that does not verify, and that nobody has checked, is never appended to. */
  ghost predicate Frozen(lib: Library, s: Sys) {
    Scan(lib, s.file, 1, "") == None && forall p: nat :: !PcOf(s.pcs, p).Ready?
  }

  lemma {:induction false} BrokenLogNeverGrows(lib: Library, s: Sys, steps: seq<Step>)
    requires Frozen(lib, s)
    ensures Frozen(lib, Run(lib, s, steps)) && Run(lib, s, steps).file == s.file
    decreases |steps|
  {
    hide Scan, NewLine, NewHash, Good;
    if steps != [] {
      var t := if Enabled(lib, s, steps[0]) then Next(lib, s, steps[0]) else s;
      forall q: nat
        ensures !PcOf(t.pcs, q).Ready?
      {
        assert !PcOf(s.pcs, q).Ready? && !PcOf(s.pcs, steps[0].p).Ready?;
      }
      BrokenLogNeverGrows(lib, t, steps[1..]);
    }
  }

  /** In particular after a write cut short or not good: whoever comes later leaves the log as it is. */
  lemma SpoiledLogIsFrozen(lib: Library, s: Sys, start: nat)
    requires Inv(lib, s, start) && (s.torn || s.spoiled)
    ensures Frozen(lib, s)
  {
    forall q: nat
      ensures !PcOf(s.pcs, q).Ready?
    {
      assert Consistent(lib, s, q);
    }
  }

  /**
   * Whatever spoils a log that was accepted, no step of any recorder after that changes the file;
   * nor does it become acceptable again.
   */
  lemma SpoiledLogNeverGrows(lib: Library, file: string, start: nat, steps: seq<Step>, later: seq<Step>)
    requires Faithful(lib) && Scan(lib, file, 1, "").Some? && Scan(lib, file, 1, "").value.0 == start + 1
    requires Scan(lib, Run(lib, Fresh(file), steps).file, 1, "").None?
    ensures Run(lib, Fresh(file), steps + later).file == Run(lib, Fresh(file), steps).file
    ensures Scan(lib, Run(lib, Fresh(file), steps + later).file, 1, "").None?
  {
    hide Scan, Run, Faithful, Frozen;
    var s := Run(lib, Fresh(file), steps);
    FreshInv(lib, file, start);
    RunKeepsInv(lib, Fresh(file), start, steps);
    LogStaysAccepted(lib, file, start, steps);
    SpoiledLogIsFrozen(lib, s, start);
    BrokenLogNeverGrows(lib, s, later);
    RunSplits(lib, Fresh(file), steps, later);
  }

  lemma {:induction false} RunSplits(lib: Library, s: Sys, first: seq<Step>, later: seq<Step>)
    ensures Run(lib, s, first + later) == Run(lib, Run(lib, s, first), later)
    decreases |first|
  {
    hide Next, Enabled;
    if first == [] {
      assert first + later == later;
    } else {
      assert (first + later)[1..] == first[1..] + later;
      RunSplits(lib, if Enabled(lib, s, first[0]) then Next(lib, s, first[0]) else s, first[1..], later);
    }
  }

  // ----- what an accepted log is: numbered entries, each naming the hash before it -----

  function Entries(lib: Library, text: string): (r: seq<Items>)
    decreases |text|
  {
    if text == "" then []
    else
      match FirstEntry(lib, text)
      case Some(Object(items)) => [items] + Entries(lib, text[LineEnd(text) + 1..])
      case _ => []
  }

  /** The hash the entry at position i must name. */
  function Before(lib: Library, es: seq<Items>, i: nat, previous: string): (r: string)
    requires i <= |es|
  {
    if i == 0 then previous else HashOf(lib, es[i - 1])
  }

  ghost predicate Chain(lib: Library, es: seq<Items>, first: nat, previous: string) {
    forall i: nat :: i < |es| ==> EntryValid(lib, Object(es[i]), first + i, Before(lib, es, i, previous))
  }

  lemma EntryEndsInside(lib: Library, text: string)
    ensures FirstEntry(lib, text).Some? ==> LineEnd(text) < |text|
  {
  }

  lemma ChainCons(lib: Library, items: Items, tail: seq<Items>, first: nat, previous: string)
    requires EntryValid(lib, Object(items), first, previous) && Chain(lib, tail, first + 1, HashOf(lib, items))
    ensures Chain(lib, [items] + tail, first, previous)
    ensures Before(lib, [items] + tail, 1 + |tail|, previous) == Before(lib, tail, |tail|, HashOf(lib, items))
  {
    hide EntryValid, HashOf;
    var es := [items] + tail;
    forall i: nat | i < |es|
      ensures EntryValid(lib, Object(es[i]), first + i, Before(lib, es, i, previous))
    {
      if i > 0 {
        assert es[i] == tail[i - 1];
        assert Before(lib, es, i, previous) == Before(lib, tail, i - 1, HashOf(lib, items));
      }
    }
  }

  lemma {:induction false} AcceptedIsChain(lib: Library, text: string, first: nat, previous: string)
    requires Scan(lib, text, first, previous).Some?
    ensures var es := Entries(lib, text);
      && Chain(lib, es, first, previous)
      && Scan(lib, text, first, previous).value == (first + |es|, Before(lib, es, |es|, previous))
    decreases |text|
  {
    hide EntryValid, HashOf, FirstEntry;
    if text != "" {
      hide Chain, Before;
      EntryEndsInside(lib, text);
      var rest := text[LineEnd(text) + 1..];
      ValidIsObject(lib, FirstEntry(lib, text).value, first, previous);
      var items := FirstEntry(lib, text).value.items;
      AcceptedIsChain(lib, rest, first + 1, HashOf(lib, items));
      ChainCons(lib, items, Entries(lib, rest), first, previous);
    }
  }

  // ----- binding -----

  lemma {:induction false} GetSurvivesRemove(items: Items, key: Key, gone: Key)
    requires key != gone
    ensures Get(Remove(items, gone), key) == Get(items, key)
    decreases |items|
  {
    if items != [] && items[0].0 != gone {
      GetSurvivesRemove(items[1..], key, gone);
      assert ([items[0]] + Remove(items[1..], gone))[1..] == Remove(items[1..], gone);
    }
  }

  /** Equal payloads name the same previous hash. */
  lemma PayloadFixesPrevious(lib: Library, a: Items, b: Items)
    requires Faithful(lib) && Payload(lib, a) == Payload(lib, b)
    ensures GetString(a, PreviousHash) == GetString(b, PreviousHash)
  {
    var x, y := Remove(Remove(a, Hash), Signature), Remove(Remove(b, Hash), Signature);
    assert lib.parse(lib.render(Object(x))) == Some(Object(x));
    assert lib.parse(lib.render(Object(y))) == Some(Object(y));
    GetSurvivesRemove(a, PreviousHash, Hash);
    GetSurvivesRemove(b, PreviousHash, Hash);
    GetSurvivesRemove(Remove(a, Hash), PreviousHash, Signature);
    GetSurvivesRemove(Remove(b, Hash), PreviousHash, Signature);
  }

  lemma NamesPrevious(lib: Library, es: seq<Items>, n: nat)
    requires Chain(lib, es, 1, "") && 0 < n <= |es|
    ensures GetString(es[n - 1], PreviousHash) == Some(Before(lib, es, n - 1, ""))
  {
    assert EntryValid(lib, Object(es[n - 1]), 1 + (n - 1), Before(lib, es, n - 1, ""));
  }

  /** Two different payloads with one hash. */
  ghost predicate Collides(lib: Library, a: Items, b: Items) {
    Payload(lib, a) != Payload(lib, b) && HashOf(lib, a) == HashOf(lib, b)
  }

  /** Chains of one length with one last hash: walks back to the first difference, if any. */
  lemma {:induction false} ChainsAgreeOrCollide(lib: Library, a: seq<Items>, b: seq<Items>, n: nat) returns (at: int)
    requires Faithful(lib) && Chain(lib, a, 1, "") && Chain(lib, b, 1, "")
    requires n <= |a| && n <= |b| && Before(lib, a, n, "") == Before(lib, b, n, "")
    ensures -1 <= at < n
    ensures at >= 0 ==> Collides(lib, a[at], b[at])
    ensures at < 0 ==> forall i :: 0 <= i < n ==> Payload(lib, a[i]) == Payload(lib, b[i])
    decreases n
  {
    hide Faithful, Payload, Chain, HashOf, GetString;
    if n == 0 {
      return -1;
    }
    var x, y := a[n - 1], b[n - 1];
    if Payload(lib, x) != Payload(lib, y) {
      assert Collides(lib, x, y);
      return n - 1;
    }
    PayloadFixesPrevious(lib, x, y);
    NamesPrevious(lib, a, n);
    NamesPrevious(lib, b, n);
    at := ChainsAgreeOrCollide(lib, a, b, n - 1);
  }

  /**
   * Binding: two accepted logs of one length and one last hash carry the same payloads, or the
   * position of a hash collision is found.
   */
  lemma LogsAgreeOrCollide(lib: Library, p: string, q: string) returns (at: int)
    requires Faithful(lib)
    requires Scan(lib, p, 1, "").Some? && Scan(lib, q, 1, "") == Scan(lib, p, 1, "")
    ensures var a, b := Entries(lib, p), Entries(lib, q);
      && |a| == |b| && -1 <= at < |a|
      && (at >= 0 ==> Collides(lib, a[at], b[at]))
      && (at < 0 ==> forall i :: 0 <= i < |a| ==> Payload(lib, a[i]) == Payload(lib, b[i]))
  {
    hide Scan, Entries, Faithful, Payload;
    AcceptedIsChain(lib, p, 1, "");
    AcceptedIsChain(lib, q, 1, "");
    var a, b := Entries(lib, p), Entries(lib, q);
    at := ChainsAgreeOrCollide(lib, a, b, |a|);
  }

  // ----- audit_record, run by one process -----

  class LogFile {
    var text: string
  }

  /** The two settings and everything the calls of one audit_record return. */
  datatype World = World(
    enabled: bool, sign: bool, opens: bool, locks: bool, memory: bool, time: int,
    signature: Option<string>, written: int, synced: bool)

  /** The signature that goes into the entry, if signing is on and works. */
  function ChosenSignature(w: World): (r: Option<string>) {
    if w.sign then w.signature else None
  }

  /** Everything before the write succeeds and the line fits. */
  predicate Reaches(lib: Library, w: World, rec: Record, text: string) {
    && w.enabled && rec.action != "" && w.opens && w.locks && w.memory
    && Scan(lib, text, 1, "").Some?
    && (w.sign ==> w.signature.Some?)
    && var r := Scan(lib, text, 1, "").value;
    |NewLine(lib, rec, w.time, r.0, r.1, ChosenSignature(w))| <= LINE_MAX
  }

  /** The steps audit_record takes, as recorder p among others would. */
  function StepsOf(lib: Library, w: World, rec: Record, text: string, p: nat): (steps: seq<Step>) {
    if !w.enabled || rec.action == "" || !w.opens then []
    else if !w.locks then [Open(p), LockFails(p)]
    else if Scan(lib, text, 1, "").None? then [Open(p), Lock(p), Check(p), Release(p)]
    else if !Reaches(lib, w, rec, text) then [Open(p), Lock(p), Check(p), GiveUp(p), Release(p)]
    else
      var r := Scan(lib, text, 1, "").value;
      var line := NewLine(lib, rec, w.time, r.0, r.1, ChosenSignature(w));
      var written: nat := if 0 <= w.written <= |line| then w.written else 0;
      [Open(p), Lock(p), Check(p), Append(p, rec, w.time, ChosenSignature(w), written), Release(p)]
  }

  /** The file after those steps of a single recorder. */
  function Recorded(lib: Library, w: World, rec: Record, text: string): (file: string) {
    Run(lib, Fresh(text), StepsOf(lib, w, rec, text, 0)).file
  }

  lemma RunOne(lib: Library, s: Sys, st: Step, rest: seq<Step>)
    requires Enabled(lib, s, st)
    ensures Run(lib, s, [st] + rest) == Run(lib, Next(lib, s, st), rest)
  {
    hide Next, Enabled;
    assert ([st] + rest)[1..] == rest;
  }

  lemma RunEnds(lib: Library, s: Sys)
    ensures Run(lib, s, []) == s
  {
  }

  /** One recorder alone, after taking the lock and checking the log. */
  function Checked(lib: Library, text: string): (s: Sys) {
    var r := Scan(lib, text, 1, "");
    Fresh(text).(lock := Some(0), pcs := map[0 := if r.Some? then Ready(r.value.0, r.value.1) else Closing])
  }

  lemma RunToCheck(lib: Library, text: string, rest: seq<Step>)
    ensures Run(lib, Fresh(text), [Open(0), Lock(0), Check(0)] + rest) == Run(lib, Checked(lib, text), rest)
  {
    hide Scan, Run, NewLine, Good;
    var s0 := Fresh(text);
    var s1 := Next(lib, s0, Open(0));
    var s2 := Next(lib, s1, Lock(0));
    RunOne(lib, s0, Open(0), [Lock(0), Check(0)] + rest);
    RunOne(lib, s1, Lock(0), [Check(0)] + rest);
    RunOne(lib, s2, Check(0), rest);
    assert [Open(0), Lock(0), Check(0)] + rest == [Open(0)] + ([Lock(0), Check(0)] + rest);
    assert [Lock(0), Check(0)] + rest == [Lock(0)] + ([Check(0)] + rest);
    assert Next(lib, s2, Check(0)).pcs == Checked(lib, text).pcs;
  }

  /** A last step inside the lock and the release: the file is as that step leaves it. */
  lemma RunToRelease(lib: Library, s: Sys, st: Step)
    requires st.p == 0 && (st.GiveUp? || st.Append?) && Enabled(lib, s, st)
    ensures Run(lib, s, [st, Release(0)]).file == Next(lib, s, st).file
  {
    hide Scan, Run, NewLine, Good;
    var t := Next(lib, s, st);
    assert [st, Release(0)] == [st] + [Release(0)] && [Release(0)] == [Release(0)] + [];
    RunOne(lib, s, st, [Release(0)]);
    RunOne(lib, t, Release(0), []);
    RunEnds(lib, Next(lib, t, Release(0)));
  }

  /** What the steps of one recorder leave in the file. */
  lemma RecordedIs(lib: Library, w: World, rec: Record, text: string)
    ensures !Reaches(lib, w, rec, text) ==> Recorded(lib, w, rec, text) == text
    ensures Reaches(lib, w, rec, text) ==>
      var r := Scan(lib, text, 1, "").value;
      var line := NewLine(lib, rec, w.time, r.0, r.1, ChosenSignature(w));
      Recorded(lib, w, rec, text) == text + (if 0 <= w.written <= |line| then line[..w.written] else "")
  {
    hide Scan, Run, NewLine, Good;
    var s0, steps := Fresh(text), StepsOf(lib, w, rec, text, 0);
    if steps == [] {
      RunEnds(lib, s0);
    } else if !w.locks {
      var s1 := Next(lib, s0, Open(0));
      assert steps == [Open(0)] + [LockFails(0)] && [LockFails(0)] == [LockFails(0)] + [];
      RunOne(lib, s0, Open(0), [LockFails(0)]);
      RunOne(lib, s1, LockFails(0), []);
      RunEnds(lib, Next(lib, s1, LockFails(0)));
    } else {
      var c, rest := Checked(lib, text), steps[3..];
      assert steps == [Open(0), Lock(0), Check(0)] + rest;
      RunToCheck(lib, text, rest);
      if Scan(lib, text, 1, "").None? {
        assert rest == [Release(0)] + [];
        RunOne(lib, c, Release(0), []);
        RunEnds(lib, Next(lib, c, Release(0)));
      } else {
        assert rest == [rest[0], Release(0)];
        RunToRelease(lib, c, rest[0]);
      }
    }
  }

  /** A line is written in this one case: in all others the file stays as it was. */
  lemma RecordedByCases(lib: Library, w: World, rec: Record, text: string)
    ensures var r := Scan(lib, text, 1, "");
      if !w.enabled || rec.action == "" || !w.opens || !w.locks || !w.memory || r.None? || (w.sign && w.signature.None?)
      then Recorded(lib, w, rec, text) == text
      else
        var line := NewLine(lib, rec, w.time, r.value.0, r.value.1, if w.sign then w.signature else None);
        Recorded(lib, w, rec, text) == text + if |line| <= 65536 && 0 <= w.written <= |line| then line[..w.written] else ""
  {
    hide Scan, NewLine, Recorded;
    RecordedIs(lib, w, rec, text);
    assert text + "" == text;
  }

  method LastEntry(lib: Library, text: string) returns (ok: bool, next: nat, previous: string)
    ensures ok == Scan(lib, text, 1, "").Some?
    ensures ok ==> (next, previous) == Scan(lib, text, 1, "").value
  {
    var rest := text;
    next, previous := 1, "";
    while rest != ""
      invariant Scan(lib, rest, next, previous) == Scan(lib, text, 1, "")
      decreases |rest|
    {
      var k := LineEnd(rest);
      if k == |rest| || k + 1 > LINE_MAX {
        return false, next, previous;
      }
      var entry := lib.parse(rest[..k]);
      if entry.None? || !EntryValid(lib, entry.value, next, previous) {
        return false, next, previous;
      }
      previous := HashOf(lib, entry.value.items);
      next := next + 1;
      rest := rest[k + 1..];
    }
    ok := true;
  }

  /**
   * Appends exactly the bytes written of the one new line, and only to a log that verifies; that
   * is what the steps of one recorder do.
   */
  method AuditRecord(lib: Library, w: World, rec: Record, file: LogFile) returns (ok: bool)
    modifies file
    ensures !w.enabled ==> ok && file.text == old(file.text)
    ensures w.enabled && !Reaches(lib, w, rec, old(file.text)) ==> !ok && file.text == old(file.text)
    ensures Reaches(lib, w, rec, old(file.text)) ==>
      var r := Scan(lib, old(file.text), 1, "").value;
      var line := NewLine(lib, rec, w.time, r.0, r.1, ChosenSignature(w));
      && file.text == old(file.text) + (if 0 <= w.written <= |line| then line[..w.written] else "")
      && (ok <==> w.written == |line| && w.synced)
    ensures file.text == Recorded(lib, w, rec, old(file.text))
  {
    hide Scan, EntryValid, HashOf, NewEntry, Recorded;
    RecordedIs(lib, w, rec, file.text);
    if !w.enabled {
      return true;
    }
    if rec.action == "" || !w.opens || !w.locks {
      return false;
    }
    var found, next, previous := LastEntry(lib, file.text);
    if !found || !w.memory || (w.sign && w.signature.None?) {
      return false;
    }
    var line := NewLine(lib, rec, w.time, next, previous, ChosenSignature(w));
    if |line| > LINE_MAX {
      return false;
    }
    if 0 <= w.written <= |line| {
      file.text := file.text + line[..w.written];
    }
    ok := w.written == |line| && w.synced;
  }
}
