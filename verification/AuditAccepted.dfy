/**
 * What the verifier of src/audit/audit.c accepts, said of the text, its lines and their fields, and
 * what it makes of a changed entry.
 */
module AuditAccepted {
  import opened Common
  import opened AuditLog

  // ----- what is accepted, field by field -----

  /** Item i is the first with this key. */
  predicate First(items: Items, key: Key, i: nat) {
    i < |items| && items[i].0 == key && forall k :: 0 <= k < i ==> items[k].0 != key
  }

  /** The first item with this key has this value. */
  ghost predicate Has(items: Items, key: Key, value: Value) {
    exists i: nat :: i < |items| && First(items, key, i) && items[i].1 == value
  }

  /** All but the first item with this key, or all if there is none. */
  ghost predicate IsWithout(items: Items, key: Key, rest: Items) {
    || (rest == items && forall i: nat :: !First(items, key, i))
    || exists i: nat :: First(items, key, i) && rest == items[..i] + items[i + 1..]
  }

  lemma FirstStep(items: Items, key: Key, i: nat)
    requires items != []
    ensures First(items, key, i) <==>
      if i == 0 then items[0].0 == key else items[0].0 != key && First(items[1..], key, i - 1)
  {
    var rest := items[1..];
    if 0 < i < |items| && items[0].0 != key && First(rest, key, i - 1) {
      assert forall k :: 0 < k < i ==> items[k] == rest[k - 1];
    }
    if i > 0 && First(items, key, i) {
      assert forall k :: 0 <= k < i - 1 ==> rest[k] == items[k + 1];
    }
  }

  lemma {:induction false} GetIff(items: Items, key: Key, value: Value)
    ensures Get(items, key) == Some(value) <==> Has(items, key, value)
    decreases |items|
  {
    hide First;
    NoFirst(items, key);
    if items != [] {
      FirstStep(items, key, 0);
      GetIff(items[1..], key, value);
      if i: nat :| i < |items| && First(items, key, i) && items[i].1 == value {
        FirstStep(items, key, i);
        FirstInside(items, key, i);
      }
      if i: nat :| items[0].0 != key && i < |items[1..]| && First(items[1..], key, i) && items[1..][i].1 == value {
        FirstStep(items, key, i + 1);
        FirstInside(items[1..], key, i);
        assert items[i + 1].1 == value;
      }
    }
  }

  lemma NoFirst(items: Items, key: Key)
    ensures items == [] ==> forall i: nat :: !First(items, key, i)
  {
  }

  lemma FirstInside(items: Items, key: Key, i: nat)
    requires First(items, key, i)
    ensures i < |items| && items[i].0 == key
  {
  }

  lemma RemoveStep(items: Items, key: Key)
    requires items != []
    ensures Remove(items, key) == if items[0].0 == key then items[1..] else [items[0]] + Remove(items[1..], key)
  {
  }

  lemma {:induction false} RemoveFirst(items: Items, key: Key, i: nat)
    requires First(items, key, i)
    ensures i < |items| && Remove(items, key) == items[..i] + items[i + 1..]
    decreases i
  {
    hide First, Remove;
    FirstInside(items, key, i);
    FirstStep(items, key, i);
    RemoveStep(items, key);
    var rest := items[1..];
    if i == 0 {
      assert items[..0] + items[1..] == items[1..];
    } else {
      RemoveFirst(rest, key, i - 1);
      assert items[..i] == [items[0]] + rest[..i - 1] && items[i + 1..] == rest[i..];
      assert [items[0]] + (rest[..i - 1] + rest[i..]) == [items[0]] + rest[..i - 1] + rest[i..];
    }
  }

  lemma {:induction false} RemoveNone(items: Items, key: Key)
    requires forall i: nat :: !First(items, key, i)
    ensures Remove(items, key) == items
    decreases |items|
  {
    hide First;
    if items != [] {
      FirstStep(items, key, 0);
      forall i: nat
        ensures !First(items[1..], key, i)
      {
        FirstStep(items, key, i + 1);
      }
      RemoveNone(items[1..], key);
    }
  }

  lemma RemoveIff(items: Items, key: Key, rest: Items)
    ensures IsWithout(items, key, rest) <==> rest == Remove(items, key)
  {
    hide Remove, First;
    if i: nat :| First(items, key, i) {
      RemoveFirst(items, key, i);
      forall j: nat | First(items, key, j)
        ensures j < |items| && Remove(items, key) == items[..j] + items[j + 1..]
      {
        RemoveFirst(items, key, j);
      }
    } else {
      RemoveNone(items, key);
    }
  }

  /** The hash of the object without its first hash and signature. */
  ghost predicate IsHashOf(lib: Library, items: Items, hash: string) {
    exists a: Items, b: Items :: IsWithout(items, Hash, a) && IsWithout(a, Signature, b) && hash == lib.hash(lib.render(Object(b)))
  }

  lemma HashIff(lib: Library, items: Items, hash: string)
    ensures IsHashOf(lib, items, hash) <==> hash == HashOf(lib, items)
  {
    hide Remove, IsWithout;
    var a := Remove(items, Hash);
    RemoveIff(items, Hash, a);
    RemoveIff(a, Signature, Remove(a, Signature));
    if IsHashOf(lib, items, hash) {
      var p: Items, q: Items :|
        IsWithout(items, Hash, p) && IsWithout(p, Signature, q) && hash == lib.hash(lib.render(Object(q)));
      RemoveIff(items, Hash, p);
      RemoveIff(p, Signature, q);
    }
  }

  ghost predicate HasString(items: Items, key: Key) {
    exists s: string :: Has(items, key, Str(s))
  }

  /** A number whose whole part is n. */
  ghost predicate HasNumber(items: Items, key: Key, n: int) {
    exists f: nat :: Has(items, key, Num(n, f))
  }

  /**
   * What the source demands of an entry: version 1, its number, the hash before it, a time past the
   * epoch, actor, action, target, outcome and detail, its own hash stored as 64 characters, and no
   * signature but an empty one or one that verifies.
   */
  ghost predicate Stamped(lib: Library, items: Items, number: nat, previous: string, hash: string) {
    && HasNumber(items, Version, 1) && HasNumber(items, Seq, number)
    && Has(items, PreviousHash, Str(previous))
    && Has(items, Hash, Str(hash)) && |hash| == 64 && IsHashOf(lib, items, hash)
    && (exists time: int :: time > 0 && HasNumber(items, Timestamp, time))
    && (exists actor: Value :: Has(items, ActorUid, actor))
    && HasString(items, Action) && HasString(items, Target) && HasString(items, Outcome) && HasString(items, Detail)
    && forall sig: string :: Has(items, Signature, Str(sig)) ==> sig == "" || lib.verify(hash, sig)
  }

  lemma StringIff(items: Items, key: Key)
    ensures GetString(items, key).Some? <==> HasString(items, key)
    ensures forall s: string :: GetString(items, key) == Some(s) <==> Has(items, key, Str(s))
  {
    hide Get, Has;
    forall s: string
      ensures GetString(items, key) == Some(s) <==> Has(items, key, Str(s))
    {
      GetIff(items, key, Str(s));
    }
    if GetString(items, key).Some? {
      assert Has(items, key, Str(GetString(items, key).value));
    }
  }

  lemma NumberIff(items: Items, key: Key, n: nat)
    requires n > 0
    ensures GetU64(items, key) == n <==> HasNumber(items, key, n)
  {
    hide Get, Has;
    forall f: nat
      ensures Get(items, key) == Some(Num(n, f)) <==> Has(items, key, Num(n, f))
    {
      GetIff(items, key, Num(n, f));
    }
    if GetU64(items, key) == n {
      assert Get(items, key) == Some(Num(n, Get(items, key).value.fraction));
    }
  }

  lemma PresentIff(items: Items, key: Key)
    ensures Get(items, key).Some? <==> exists v: Value :: Has(items, key, v)
  {
    hide Get, Has;
    forall v: Value
      ensures Get(items, key) == Some(v) <==> Has(items, key, v)
    {
      GetIff(items, key, v);
    }
    if Get(items, key).Some? {
      assert Has(items, key, Get(items, key).value);
    }
  }

  lemma TimeIff(items: Items)
    ensures GetU64(items, Timestamp) != 0 <==> exists time: int :: time > 0 && HasNumber(items, Timestamp, time)
  {
    hide GetU64, HasNumber;
    forall time: int | time > 0
      ensures GetU64(items, Timestamp) == time <==> HasNumber(items, Timestamp, time)
    {
      NumberIff(items, Timestamp, time);
    }
    if GetU64(items, Timestamp) != 0 {
      assert HasNumber(items, Timestamp, GetU64(items, Timestamp));
    }
  }

  /** An entry is valid exactly when it is stamped with its own hash. */
  lemma EntryIff(lib: Library, items: Items, number: nat, previous: string, hash: string)
    requires number > 0
    ensures Stamped(lib, items, number, previous, hash) <==>
      EntryValid(lib, Object(items), number, previous) && hash == HashOf(lib, items)
  {
    hide Get, GetString, GetU64, Has, HasString, HasNumber, IsHashOf, HashOf;
    HashIff(lib, items, hash);
    NumberIff(items, Version, 1);
    NumberIff(items, Seq, number);
    TimeIff(items);
    PresentIff(items, ActorUid);
    StringIff(items, PreviousHash);
    StringIff(items, Hash);
    StringIff(items, Action);
    StringIff(items, Target);
    StringIff(items, Outcome);
    StringIff(items, Detail);
    StringIff(items, Signature);
  }

  function JoinLines(lines: seq<string>): (text: string) {
    if lines == [] then "" else lines[0] + "\n" + JoinLines(lines[1..])
  }

  /** Line i: at most 65536 characters with its end, and an object stamped with its number and the hash before. */
  ghost predicate GoodLine(
    lib: Library, lines: seq<string>, es: seq<Items>, hashes: seq<string>, first: nat, previous: string, i: nat)
    requires i < |lines| == |es| == |hashes|
  {
    && '\n' !in lines[i] && |lines[i]| + 1 <= 65536 && lib.parse(lines[i]) == Some(Object(es[i]))
    && Stamped(lib, es[i], first + i, if i == 0 then previous else hashes[i - 1], hashes[i])
  }

  ghost predicate Log(
    lib: Library, text: string, lines: seq<string>, es: seq<Items>, hashes: seq<string>, first: nat, previous: string)
  {
    && |lines| == |es| == |hashes| && text == JoinLines(lines)
    && forall i: nat :: i < |lines| ==> GoodLine(lib, lines, es, hashes, first, previous, i)
  }

  lemma LineCons(
    lib: Library, line: string, items: Items, hash: string,
    lines: seq<string>, es: seq<Items>, hashes: seq<string>, first: nat, previous: string, i: nat)
    requires |lines| == |es| == |hashes| && i <= |lines|
    ensures GoodLine(lib, [line] + lines, [items] + es, [hash] + hashes, first, previous, i) <==>
      if i > 0 then GoodLine(lib, lines, es, hashes, first + 1, hash, i - 1)
      else
        && '\n' !in line && |line| + 1 <= 65536 && lib.parse(line) == Some(Object(items))
        && Stamped(lib, items, first, previous, hash)
  {
    hide Stamped;
  }

  lemma LogCons(
    lib: Library, line: string, items: Items, hash: string,
    lines: seq<string>, es: seq<Items>, hashes: seq<string>, first: nat, previous: string)
    requires |lines| == |es| == |hashes|
    ensures Log(lib, line + "\n" + JoinLines(lines), [line] + lines, [items] + es, [hash] + hashes, first, previous) <==>
      && '\n' !in line && |line| + 1 <= 65536 && lib.parse(line) == Some(Object(items))
      && Stamped(lib, items, first, previous, hash)
      && Log(lib, JoinLines(lines), lines, es, hashes, first + 1, hash)
  {
    hide Stamped, GoodLine;
    var second := first + 1;
    var ls, os, hs := [line] + lines, [items] + es, [hash] + hashes;
    assert ls[1..] == lines;
    LineCons(lib, line, items, hash, lines, es, hashes, first, previous, 0);
    if Log(lib, JoinLines(lines), lines, es, hashes, second, hash) {
      forall i: nat | i < |ls|
        ensures i > 0 ==> GoodLine(lib, ls, os, hs, first, previous, i)
      {
        LineCons(lib, line, items, hash, lines, es, hashes, first, previous, i);
      }
    }
    if Log(lib, line + "\n" + JoinLines(lines), ls, os, hs, first, previous) {
      forall i: nat | i < |lines|
        ensures GoodLine(lib, lines, es, hashes, second, hash, i)
      {
        LineCons(lib, line, items, hash, lines, es, hashes, first, previous, i + 1);
      }
    }
  }

  lemma ScanLine(lib: Library, line: string, rest: string, first: nat, previous: string)
    requires '\n' !in line
    ensures Scan(lib, line + "\n" + rest, first, previous) ==
      var e := if |line| + 1 > 65536 then None else lib.parse(line);
      if e.Some? && EntryValid(lib, e.value, first, previous)
      then Scan(lib, rest, first + 1, HashOf(lib, e.value.items)) else None
  {
    hide EntryValid, HashOf;
    var text := line + "\n" + rest;
    LineEndIs(line, rest);
    assert text[..|line|] == line && text[|line| + 1..] == rest;
  }

  /** Every accepted text is such a log. */
  lemma {:induction false} AcceptedIsLog(lib: Library, text: string, first: nat, previous: string)
    returns (lines: seq<string>, es: seq<Items>, hashes: seq<string>)
    requires first > 0 && Scan(lib, text, first, previous).Some?
    ensures Log(lib, text, lines, es, hashes, first, previous)
    ensures Scan(lib, text, first, previous).value ==
      (first + |lines|, if hashes == [] then previous else hashes[|hashes| - 1])
    decreases |text|
  {
    hide EntryValid, HashOf, Stamped, Log, Scan;
    if text == "" {
      EmptyLog(lib, first, previous);
      return [], [], [];
    }
    var k := LineEnd(text);
    TerminatedLine(lib, text, first, previous);
    var line, rest := text[..k], text[k + 1..];
    assert text == line + "\n" + rest;
    ScanLine(lib, line, rest, first, previous);
    ValidIsObject(lib, lib.parse(line).value, first, previous);
    var items := lib.parse(line).value.items;
    var hash := HashOf(lib, items);
    EntryIff(lib, items, first, previous, hash);
    var ls, os, hs := AcceptedIsLog(lib, rest, first + 1, hash);
    LogText(lib, rest, ls, os, hs, first + 1, hash);
    LogCons(lib, line, items, hash, ls, os, hs, first, previous);
    lines, es, hashes := [line] + ls, [items] + os, [hash] + hs;
  }

  lemma EmptyLog(lib: Library, first: nat, previous: string)
    ensures Log(lib, "", [], [], [], first, previous) && Scan(lib, "", first, previous) == Some((first, previous))
  {
  }

  lemma LogText(lib: Library, text: string, lines: seq<string>, es: seq<Items>, hashes: seq<string>, first: nat, previous: string)
    requires Log(lib, text, lines, es, hashes, first, previous)
    ensures |lines| == |es| == |hashes| && text == JoinLines(lines)
  {
  }

  lemma TerminatedLine(lib: Library, text: string, first: nat, previous: string)
    requires text != "" && Scan(lib, text, first, previous).Some?
    ensures LineEnd(text) < |text|
  {
    hide EntryValid, HashOf;
  }

  /** And every such log is accepted. */
  lemma {:induction false} LogIsAccepted(
    lib: Library, text: string, lines: seq<string>, es: seq<Items>, hashes: seq<string>, first: nat, previous: string)
    requires first > 0 && Log(lib, text, lines, es, hashes, first, previous)
    ensures Scan(lib, text, first, previous) ==
      Some((first + |lines|, if hashes == [] then previous else hashes[|hashes| - 1]))
    decreases |lines|
  {
    hide EntryValid, HashOf, Stamped, Log, Scan;
    LogText(lib, text, lines, es, hashes, first, previous);
    if lines == [] {
      EmptyLog(lib, first, previous);
    } else {
      var line, items, hash := lines[0], es[0], hashes[0];
      var ls, os, hs := lines[1..], es[1..], hashes[1..];
      assert [line] + ls == lines && [items] + os == es && [hash] + hs == hashes;
      LogCons(lib, line, items, hash, ls, os, hs, first, previous);
      EntryIff(lib, items, first, previous, hash);
      ScanLine(lib, line, JoinLines(ls), first, previous);
      LogIsAccepted(lib, JoinLines(ls), ls, os, hs, first + 1, hash);
    }
  }

  /** A text is accepted exactly when it is a log numbered from 1, each entry naming the stored hash before it. */
  lemma AcceptedIff(lib: Library, text: string)
    ensures Scan(lib, text, 1, "").Some? <==>
      exists lines: seq<string>, es: seq<Items>, hashes: seq<string> :: Log(lib, text, lines, es, hashes, 1, "")
  {
    hide Scan, Log;
    if Scan(lib, text, 1, "").Some? {
      var lines, es, hashes := AcceptedIsLog(lib, text, 1, "");
    }
    if lines: seq<string>, es: seq<Items>, hashes: seq<string> :| Log(lib, text, lines, es, hashes, 1, "") {
      LogIsAccepted(lib, text, lines, es, hashes, 1, "");
    }
  }

  // ----- tampering -----

  lemma {:induction false} ScanPrefix(lib: Library, a: string, b: string, n: nat, previous: string)
    requires a == "" || a[|a| - 1] == '\n'
    requires Scan(lib, a + b, n, previous).Some?
    ensures Scan(lib, a, n, previous).Some?
    decreases |a|
  {
    hide EntryValid, HashOf;
    if a != "" {
      LineEndBefore(a, |a| - 1);
      LineEndAppend(a, b);
      var k := LineEnd(a);
      assert (a + b)[..k] == a[..k];
      assert (a + b)[k + 1..] == a[k + 1..] + b;
      var rest := a[k + 1..];
      if rest != "" {
        assert rest[|rest| - 1] == a[|a| - 1];
      }
      assert FirstEntry(lib, a) == FirstEntry(lib, a + b);
      ValidIsObject(lib, FirstEntry(lib, a).value, n, previous);
      ScanPrefix(lib, rest, b, n + 1, HashOf(lib, FirstEntry(lib, a).value.items));
    }
  }

  lemma {:induction false} LineEndBefore(text: string, i: nat)
    requires i < |text| && text[i] == '\n'
    ensures LineEnd(text) <= i
  {
    if text[0] != '\n' {
      LineEndBefore(text[1..], i - 1);
    }
  }

  /** The stored hash of a valid entry. */
  lemma StoredHash(lib: Library, items: Items, n: nat, previous: string, hash: string)
    requires EntryValid(lib, Object(items), n, previous) && Has(items, Hash, Str(hash))
    ensures hash == HashOf(lib, items)
  {
    hide Get, Has, HashOf;
    StringIff(items, Hash);
  }

  /**
   * Replacing one line of an accepted log by another object with the same stored hash but anything
   * else changed in what is hashed makes the log rejected, unless the two payloads collide.
   */
  lemma TamperingShows(
    lib: Library, before: string, line: string, changed: string, after: string, a: Items, b: Items, hash: string)
    requires before == "" || before[|before| - 1] == '\n'
    requires '\n' !in line && '\n' !in changed
    requires lib.parse(line) == Some(Object(a)) && lib.parse(changed) == Some(Object(b))
    requires Has(a, Hash, Str(hash)) && Has(b, Hash, Str(hash)) && Payload(lib, a) != Payload(lib, b)
    requires Scan(lib, before + (line + "\n" + after), 1, "").Some?
    ensures Scan(lib, before + (changed + "\n" + after), 1, "").None? || lib.hash(Payload(lib, a)) == lib.hash(Payload(lib, b))
  {
    hide Scan, Has, EntryValid, Payload;
    ScanPrefix(lib, before, line + "\n" + after, 1, "");
    var r := Scan(lib, before, 1, "").value;
    ScanAppend(lib, before, line + "\n" + after, 1, "");
    ScanAppend(lib, before, changed + "\n" + after, 1, "");
    ScanLine(lib, line, after, r.0, r.1);
    ScanLine(lib, changed, after, r.0, r.1);
    StoredHash(lib, a, r.0, r.1, hash);
    if Scan(lib, before + (changed + "\n" + after), 1, "").Some? {
      StoredHash(lib, b, r.0, r.1, hash);
    }
  }
}
