/** Solidity's compressed source maps, and how they attach to instructions. */
module SourceMap {
  import opened Words
  import opened Text
  import Bytecode

  datatype Location = Location(file: Option<string>, offset: nat, length: nat)

  const NOWHERE := Location(None, 0, 0)

  const OFFSET := 0
  const LENGTH := 1
  const FILE := 2
  const JUMP := 3

  /** Column `k` of an entry; an absent column is empty. */
  function Column(entry: string, k: nat): string {
    var parts := Split(entry, ':');
    if k < |parts| then parts[k] else ""
  }

  predicate Complete(entry: string) {
    Column(entry, OFFSET) != "" && Column(entry, LENGTH) != "" && Column(entry, FILE) != "" && Column(entry, JUMP) != ""
  }

  /** Entry `i` sets column `k`; an incomplete first entry sets nothing. */
  predicate Sets(entries: seq<string>, i: nat, k: nat)
    requires i < |entries|
  {
    Column(entries[i], k) != "" && (i == 0 ==> Complete(entries[0]))
  }

  /** The latest entry up to `i` that sets column `k`. */
  function Latest(entries: seq<string>, i: nat, k: nat): (j: Option<nat>)
    requires i < |entries|
    ensures j.Some? ==> j.value <= i && Sets(entries, j.value, k)
    ensures forall m :: (if j.Some? then j.value else -1) < m <= i ==> !Sets(entries, m, k)
  {
    if Sets(entries, i, k) then Some(i)
    else if i == 0 then None
    else Latest(entries, i - 1, k)
  }

  /** Every column of entry `i` that is read is a number. */
  ghost predicate Readable(entries: seq<string>, i: nat)
    requires i < |entries|
  {
    forall k :: 0 <= k <= FILE && Sets(entries, i, k) ==> ParseUint(Column(entries[i], k), USIZE).Some?
  }

  ghost predicate AllReadable(entries: seq<string>) {
    forall i :: 0 <= i < |entries| ==> Readable(entries, i)
  }

  lemma {:induction false} Unreadable(entries: seq<string>, i: nat)
    requires i < |entries| && !Readable(entries, i)
    ensures !AllReadable(entries)
  {}

  /** The value column `k` has at entry `i`: the latest explicit one. */
  function ValueAt(entries: seq<string>, i: nat, k: nat): Option<nat>
    requires i < |entries|
  {
    match Latest(entries, i, k)
    case None => None
    case Some(j) => ParseUint(Column(entries[j], k), USIZE)
  }

  function NumberOr(n: Option<nat>, otherwise: nat): nat { if n.Some? then n.value else otherwise }

  function FileOf(files: seq<string>, n: Option<nat>): Option<string> {
    if n.Some? && n.value < |files| then Some(files[n.value]) else None
  }

  /** Where entry `i` points: each part comes from the latest entry that states it. */
  function LocationAt(entries: seq<string>, files: seq<string>, i: nat): Location
    requires i < |entries|
  {
    Location(FileOf(files, ValueAt(entries, i, FILE)), NumberOr(ValueAt(entries, i, OFFSET), 0),
        NumberOr(ValueAt(entries, i, LENGTH), 0))
  }

  /** Entry `j` is the latest up to `i` that sets column `k`. */
  ghost predicate LastSet(entries: seq<string>, i: nat, k: nat, j: nat) {
    j <= i < |entries| && Sets(entries, j, k) && forall m :: j < m <= i ==> !Sets(entries, m, k)
  }

  lemma ValueFrom(entries: seq<string>, i: nat, k: nat, j: nat)
    requires LastSet(entries, i, k, j)
    ensures k < |Split(entries[j], ':')| && ValueAt(entries, i, k) == ParseUint(Split(entries[j], ':')[k], USIZE)
  {
    assert Latest(entries, i, k) == Some(j);
  }

  /** The first column is the offset, the second the length, the third the index of the file. */
  lemma LocationFrom(entries: seq<string>, files: seq<string>, i: nat, k: nat, j: nat, n: nat)
    requires LastSet(entries, i, k, j)
    requires k < |Split(entries[j], ':')| ==> ParseUint(Split(entries[j], ':')[k], USIZE) == Some(n)
    ensures var l := LocationAt(entries, files, i);
            && (k == 0 ==> l.offset == n) && (k == 1 ==> l.length == n)
            && (k == 2 ==> l.file == if n < |files| then Some(files[n]) else None)
  {
    ValueFrom(entries, i, k, j);
  }

  /** Without any, the part is zero or absent. */
  lemma LocationUnset(entries: seq<string>, files: seq<string>, i: nat, k: nat)
    requires i < |entries| && forall m :: 0 <= m <= i ==> !Sets(entries, m, k)
    ensures var l := LocationAt(entries, files, i);
            && (k == 0 ==> l.offset == 0) && (k == 1 ==> l.length == 0) && (k == 2 ==> l.file == None)
  {
    assert Latest(entries, i, k) == None;
  }

  /** When the first entry is complete, every entry has explicit values to go back to. */
  lemma {:induction false} CompleteMapInherits(entries: seq<string>, i: nat, k: nat)
    requires i < |entries| && k <= FILE && Complete(entries[0])
    ensures Latest(entries, i, k).Some?
  {
    assert Sets(entries, 0, k);
  }

  // ---- what the map says, and what an incomplete first entry loses ----

  /** The latest entry up to `i` whose column `k` is not empty, the first entry like any other. */
  function LatestExplicit(entries: seq<string>, i: nat, k: nat): (j: Option<nat>)
    requires i < |entries|
    ensures j.Some? ==> j.value <= i && Column(entries[j.value], k) != ""
    ensures forall m :: (if j.Some? then j.value else -1) < m <= i ==> Column(entries[m], k) == ""
  {
    if Column(entries[i], k) != "" then Some(i)
    else if i == 0 then None
    else LatestExplicit(entries, i - 1, k)
  }

  /** The number column `k` stands for at entry `i`, zero if it is never stated; `None` if it is not a number. */
  function Said(entries: seq<string>, i: nat, k: nat): Option<Option<nat>>
    requires i < |entries|
  {
    match LatestExplicit(entries, i, k)
    case None => Some(None)
    case Some(j) =>
      match ParseUint(Column(entries[j], k), USIZE)
      case None => None
      case Some(n) => Some(Some(n))
  }

  /** What the text means: every part from the latest entry that states it. */
  function MeantAt(entries: seq<string>, files: seq<string>, i: nat): Option<Location>
    requires i < |entries|
  {
    match (Said(entries, i, FILE), Said(entries, i, OFFSET), Said(entries, i, LENGTH))
    case (Some(file), Some(offset),
        Some(length)) => Some(Location(FileOf(files, file), NumberOr(offset, 0), NumberOr(length, 0)))
    case _ => None
  }

  /** A column text that means what an absent column means. */
  predicate MeansNothing(text: string, files: seq<string>, k: nat) {
    match ParseUint(text, USIZE)
    case None => false
    case Some(n) => if k == FILE then n >= |files| else n == 0
  }

  /** At entry `i`, whatever the first entry still states in column `k` means nothing. */
  predicate Harmless(entries: seq<string>, files: seq<string>, i: nat, k: nat)
    requires i < |entries|
  {
    LatestExplicit(entries, i, k) == Some(0) ==> MeansNothing(Column(entries[0], k), files, k)
  }

  /** The program's own search differs only where it ends at an incomplete first entry. */
  lemma {:induction false} LatestSkipsFirst(entries: seq<string>, i: nat, k: nat)
    requires i < |entries|
    ensures Latest(entries, i, k) ==
            if LatestExplicit(entries, i, k) == Some(0) && !Complete(entries[0]) then None
                else LatestExplicit(entries, i, k)
  {
    if i > 0 {
      LatestSkipsFirst(entries, i - 1, k);
    }
  }

  /** What column `k` contributes to a location. */
  function Part(files: seq<string>, n: Option<nat>, k: nat): (Option<string>, nat) {
    if k == FILE then (FileOf(files, n), 0) else (None, NumberOr(n, 0))
  }

  lemma PartAgreesIff(entries: seq<string>, files: seq<string>, i: nat, k: nat)
    requires i < |entries| && AllReadable(entries) && k <= FILE
    ensures (Said(entries, i, k).Some?
            && Part(files, Said(entries, i, k).value, k) == Part(files, ValueAt(entries, i, k), k)) <==>
            (Complete(entries[0]) || Harmless(entries, files, i, k))
  {
    LatestSkipsFirst(entries, i, k);
    if Latest(entries, i, k).Some? {
      ReadableColumn(entries, Latest(entries, i, k).value, k);
    }
    if Complete(entries[0]) && LatestExplicit(entries, i, k) == Some(0) {
      ReadableColumn(entries, 0, k);
    }
  }

  lemma ReadableColumn(entries: seq<string>, j: nat, k: nat)
    requires AllReadable(entries) && j < |entries| && k <= FILE && Sets(entries, j, k)
    ensures ParseUint(Column(entries[j], k), USIZE).Some?
  {
    assert Readable(entries, j);
  }

  /**
   * The program's location is the one the text means if and only if the first entry is complete, or
   * nothing that it states is still in force at `i` and means anything.
   */
  lemma MeantIff(entries: seq<string>, files: seq<string>, i: nat)
    requires i < |entries| && AllReadable(entries)
    ensures MeantAt(entries, files, i) == Some(LocationAt(entries, files, i)) <==>
            Complete(entries[0]) ||
            (Harmless(entries, files, i, OFFSET) && Harmless(entries, files, i, LENGTH)
                && Harmless(entries, files, i, FILE))
  {
    PartAgreesIff(entries, files, i, OFFSET);
    PartAgreesIff(entries, files, i, LENGTH);
    PartAgreesIff(entries, files, i, FILE);
  }

  lemma {:induction false} ColumnsOf(texts: seq<string>, k: nat)
    requires |texts| > 0 && k < |texts| && forall i :: 0 <= i < |texts| ==> Without(texts[i], ':')
    ensures Column(Terminated(texts, ':'), k) == texts[k] && Column(Terminated(texts, ':'), |texts|) == ""
  {
    SplitTerminated(texts, ':');
  }

  /** `1:2:0:` and an empty entry: the text places both at offset 1, length 2; the program at nothing. */
  lemma IncompleteFirstEntryIsLost(files: seq<string>)
    ensures var entries := [Terminated(["1", "2", "0"], ':'), ""];
            && LocationAt(entries, files, 0) == LocationAt(entries, files, 1) == NOWHERE
            && MeantAt(entries, files, 1) == Some(Location(FileOf(files, Some(0)), 1, 2))
  {
    var texts := ["1", "2", "0"];
    var entries := [Terminated(texts, ':'), ""];
    ColumnsOf(texts, 0);
    ColumnsOf(texts, 1);
    ColumnsOf(texts, 2);
    assert Split("", ':') == [""];
    assert forall k: nat :: Column("", k) == "";
    assert !Complete(entries[0]);
    SmallTexts();
    LatestSkipsFirst(entries, 0, OFFSET);
    LatestSkipsFirst(entries, 1, OFFSET);
    LatestSkipsFirst(entries, 0, LENGTH);
    LatestSkipsFirst(entries, 1, LENGTH);
    LatestSkipsFirst(entries, 0, FILE);
    LatestSkipsFirst(entries, 1, FILE);
  }

  lemma SmallTexts()
    ensures ParseUint("0", USIZE) == Some(0) && ParseUint("1", USIZE) == Some(1) && ParseUint("2", USIZE) == Some(2)
  {
    ParseDecimal(0, USIZE);
    ParseDecimal(1, USIZE);
    ParseDecimal(2, USIZE);
    assert Decimal(0) == "0" && Decimal(1) == "1" && Decimal(2) == "2";
  }

  // ---- the loop ----

  /** One entry: its own columns, and for the others those of the entry before; `None` is the panic. */
  method NextLocation(entry: string, previous: Location, files: seq<string>) returns (next: Option<Location>)
    ensures next == Following(entry, previous, files)
  {
    var parts := Split(entry, ':');
    var hasOffset := |parts| > 0 && parts[0] != "";
    var hasLength := |parts| > 1 && parts[1] != "";
    var hasFile := |parts| > 2 && parts[2] != "";
    var file, offset, length := previous.file, previous.offset, previous.length;
    if hasFile {
      var n := ParseUint(parts[2], USIZE);
      if n.None? {
        return None;
      }
      file := if n.value < |files| then Some(files[n.value]) else None;
    }
    if hasOffset {
      var n := ParseUint(parts[0], USIZE);
      if n.None? {
        return None;
      }
      offset := n.value;
    }
    if hasLength {
      var n := ParseUint(parts[1], USIZE);
      if n.None? {
        return None;
      }
      length := n.value;
    }
    next := Some(Location(file, offset, length));
  }

  predicate NumberOrEmpty(column: string) { column == "" || ParseUint(column, USIZE).Some? }

  function Following(entry: string, previous: Location, files: seq<string>): Option<Location> {
    var offset, length, file := Column(entry, OFFSET), Column(entry, LENGTH), Column(entry, FILE);
    if NumberOrEmpty(offset) && NumberOrEmpty(length) && NumberOrEmpty(file) then
      Some(Location(
             if file == "" then previous.file else FileOf(files, ParseUint(file, USIZE)),
             if offset == "" then previous.offset else NumberOr(ParseUint(offset, USIZE), 0),
             if length == "" then previous.length else NumberOr(ParseUint(length, USIZE), 0)))
    else None
  }

  lemma {:induction false} FollowingIsLocation(entries: seq<string>, files: seq<string>, i: nat)
    requires 0 < i < |entries| && Following(entries[i], LocationAt(entries, files, i - 1), files).Some?
    ensures Following(entries[i], LocationAt(entries, files, i - 1), files) == Some(LocationAt(entries, files, i))
  {
    forall k | 0 <= k <= FILE
      ensures ValueAt(entries, i, k) == if Column(entries[i], k) == "" then ValueAt(entries, i - 1, k)
              else ParseUint(Column(entries[i], k), USIZE)
    {
    }
  }

  lemma {:induction false} FirstIsLocation(entries: seq<string>, files: seq<string>)
    requires |entries| > 0
    ensures !Complete(entries[0]) ==> LocationAt(entries, files, 0) == NOWHERE
    ensures Complete(entries[0]) && Following(entries[0], NOWHERE, files).Some? ==>
              Following(entries[0], NOWHERE, files) == Some(LocationAt(entries, files, 0))
  {
    assert forall k :: 0 <= k <= FILE ==> (Sets(entries, 0, k) <==> Complete(entries[0]));
  }

  lemma {:induction false} PanicIff(entries: seq<string>, files: seq<string>, i: nat, previous: Location)
    requires i < |entries| && (i == 0 ==> Complete(entries[0]))
    ensures Following(entries[i], previous, files).Some? <==> Readable(entries, i)
  {
    if Readable(entries, i) {
      assert Sets(entries, i, OFFSET) <==> Column(entries[i], OFFSET) != "";
      assert Sets(entries, i, LENGTH) <==> Column(entries[i], LENGTH) != "";
      assert Sets(entries, i, FILE) <==> Column(entries[i], FILE) != "";
    }
    if Following(entries[i], previous, files).Some? {
      forall k | 0 <= k <= FILE && Sets(entries, i, k) ensures ParseUint(Column(entries[i], k), USIZE).Some? {
        assert k == OFFSET || k == LENGTH || k == FILE;
      }
    }
  }

  /** What the loop pushes for entry `i`, after `previous`. */
  function Pushed(entries: seq<string>, files: seq<string>, i: nat, previous: Location): Option<Location> {
    if i >= |entries| then None
    else if i == 0 && !Complete(entries[0]) then Some(NOWHERE)
    else Following(entries[i], previous, files)
  }

  type Push = (nat, Location) -> Option<Location>

  function Pusher(entries: seq<string>, files: seq<string>): Push {
    (i: nat, previous: Location) => Pushed(entries, files, i, previous)
  }

  lemma {:induction false} PushedIsLocation(entries: seq<string>, files: seq<string>, i: nat, previous: Location)
    requires i < |entries| && previous == if i == 0 then NOWHERE else LocationAt(entries, files, i - 1)
    ensures Pushed(entries, files, i, previous).Some? <==> Readable(entries, i)
    ensures Pushed(entries, files, i, previous).Some? ==>
            Pushed(entries, files, i, previous).value == LocationAt(entries, files, i)
  {
    if i == 0 {
      FirstIsLocation(entries, files);
      if Complete(entries[0]) {
        PanicIff(entries, files, i, previous);
      }
    } else {
      PanicIff(entries, files, i, previous);
      if Following(entries[i], previous, files).Some? {
        FollowingIsLocation(entries, files, i);
      }
    }
  }

  /** `uncompress_srcmap_single`; `None` is the panic on a column that is not a number. */
  method UncompressSrcmapSingle(text: string, files: seq<string>) returns (results: Option<seq<Location>>)
    ensures results == if AllReadable(Split(text, ';')) then Some(Locations(Split(text, ';'), files)) else None
  {
    var entries := Split(text, ';');
    results := UncompressEntries(entries, files, Pusher(entries, files));
    UncompressedIsLocations(entries, files);
  }

  function LastOf(ls: seq<Location>): Location { if ls == [] then NOWHERE else ls[|ls| - 1] }

  /** The first `n` entries, one after the other. */
  function Uncompressed(push: Push, n: nat): Option<seq<Location>> {
    if n == 0 then Some([])
    else
      match Uncompressed(push, n - 1)
      case None => None
      case Some(ls) =>
        match push(n - 1, LastOf(ls))
        case None => None
        case Some(l) => Some(ls + [l])
  }

  lemma {:induction false} UncompressedNext(push: Push, n: nat, ls: seq<Location>)
    requires Uncompressed(push, n) == Some(ls)
    ensures var l := push(n, LastOf(ls)); Uncompressed(push, n + 1) == if l.Some? then Some(ls + [l.value]) else None
  {}

  lemma {:induction false} PanicStays(push: Push, n: nat, m: nat)
    requires n <= m && Uncompressed(push, n).None?
    ensures Uncompressed(push, m).None?
  {
    if n < m {
      PanicStays(push, n, m - 1);
    }
  }

  ghost function Prior(want: seq<Location>, i: nat): Location
    requires i <= |want|
  {
    if i == 0 then NOWHERE else want[i - 1]
  }

  lemma {:induction false} UncompressedIs(push: Push, want: seq<Location>, good: seq<bool>, n: nat)
    requires n <= |want| == |good|
    requires forall i :: 0 <= i < n ==> push(i, Prior(want, i)) == if good[i] then Some(want[i]) else None
    ensures Uncompressed(push, n) == if AllTrue(good, n) then Some(want[..n]) else None
  {
    if n > 0 {
      UncompressedIs(push, want, good, n - 1);
      UncompressedStep(push, want, n - 1, AllTrue(good, n - 1), good[n - 1]);
    }
  }

  lemma UncompressedStep(push: Push, want: seq<Location>, n: nat, before: bool, here: bool)
    requires n < |want| && Uncompressed(push, n) == if before then Some(want[..n]) else None
    requires push(n, Prior(want, n)) == if here then Some(want[n]) else None
    ensures Uncompressed(push, n + 1) == if before && here then Some(want[..n + 1]) else None
  {
    if before {
      assert LastOf(want[..n]) == Prior(want, n);
      assert want[..n + 1] == want[..n] + [want[n]];
      UncompressedNext(push, n, want[..n]);
    } else {
      PanicStays(push, n, n + 1);
    }
  }

  ghost predicate AllTrue(good: seq<bool>, n: nat)
    requires n <= |good|
  {
    n == 0 || (AllTrue(good, n - 1) && good[n - 1])
  }

  lemma {:induction false} AllTrueIff(good: seq<bool>, n: nat)
    requires n <= |good|
    ensures AllTrue(good, n) <==> forall i :: 0 <= i < n ==> good[i]
  {
    if n > 0 {
      AllTrueIff(good, n - 1);
    }
  }

  lemma {:induction false} UncompressedIsLocations(entries: seq<string>, files: seq<string>)
    ensures Uncompressed(Pusher(entries, files), |entries|) == if AllReadable(entries)
            then Some(Locations(entries, files)) else None
  {
    var n, want, push := |entries|, Locations(entries, files), Pusher(entries, files);
    var good := seq(n, i requires 0 <= i < n => Readable(entries, i));
    forall i | 0 <= i < n ensures push(i, Prior(want, i)) == if good[i] then Some(want[i]) else None {
      PushedIsLocation(entries, files, i, Prior(want, i));
    }
    UncompressedIs(push, want, good, n);
    assert want[..n] == want;
    AllGood(entries, good);
  }

  lemma {:induction false} AllGood(entries: seq<string>, good: seq<bool>)
    requires |good| == |entries| && forall i :: 0 <= i < |good| ==> good[i] == Readable(entries, i)
    ensures AllReadable(entries) <==> AllTrue(good, |good|)
  {
    AllTrueIff(good, |good|);
    if i :| 0 <= i < |entries| && !Readable(entries, i) {
      assert !good[i];
      Unreadable(entries, i);
    }
  }

  /** The loop of `uncompress_srcmap_single`. */
  method UncompressEntries(entries: seq<string>, files: seq<string>, ghost push: Push)
      returns (results: Option<seq<Location>>)
    requires push == Pusher(entries, files)
    ensures results == Uncompressed(push, |entries|)
  {
    var locations: seq<Location> := [];
    for i := 0 to |entries|
      invariant |locations| == i && Uncompressed(push, i) == Some(locations)
    {
      var next := PushNext(entries, files, i, LastOf(locations), push);
      UncompressedNext(push, i, locations);
      if next.None? {
        PanicStays(push, i + 1, |entries|);
        return None;
      }
      locations := locations + [next.value];
    }
    results := Some(locations);
  }

  method PushNext(entries: seq<string>, files: seq<string>, i: nat, previous: Location, ghost push: Push)
      returns (next: Option<Location>)
    requires i < |entries| && push == Pusher(entries, files)
    ensures next == push(i, previous)
  {
    if i == 0 && !Complete(entries[0]) {
      next := Some(NOWHERE);
    } else {
      next := NextLocation(entries[i], previous, files);
    }
  }

  function Locations(entries: seq<string>, files: seq<string>): (ls: seq<Location>)
    ensures |ls| == |entries| && forall i :: 0 <= i < |ls| ==> ls[i] == LocationAt(entries, files, i)
  {
    seq(|entries|, i requires 0 <= i < |entries| => LocationAt(entries, files, i))
  }

  // ---- attaching locations to instructions ----

  /** The k-th start has the k-th location, while there are locations, and nothing else has one. */
  ghost predicate Attached(starts: seq<nat>, locations: seq<Location>, m: map<nat, Location>) {
    && (forall k :: 0 <= k < |starts| && k < |locations| ==> starts[k] in m && m[starts[k]] == locations[k])
    && (forall pc :: pc in m ==> exists k :: 0 <= k < |starts| && k < |locations| && starts[k] == pc)
  }

  lemma {:induction false} AttachedSnoc(starts: seq<nat>, locations: seq<Location>, m: map<nat, Location>, pc: nat)
    requires Attached(starts, locations, m) && pc !in m && pc !in starts
    ensures Attached(starts + [pc], locations, if |starts| < |locations| then m[pc := locations[|starts|]] else m)
  {
    var s := starts + [pc];
    var m' := if |starts| < |locations| then m[pc := locations[|starts|]] else m;
    forall k | 0 <= k < |s| && k < |locations| ensures s[k] in m' && m'[s[k]] == locations[k] {
      if k < |starts| {
        assert s[k] == starts[k] && starts[k] in starts;
      }
    }
    forall q | q in m' ensures exists k :: 0 <= k < |s| && k < |locations| && s[k] == q {
      if q == pc {
        assert s[|starts|] == q;
      } else {
        var k :| 0 <= k < |starts| && k < |locations| && starts[k] == q;
        assert s[k] == q;
      }
    }
  }

  /** The loop of `decode_instructions` over the code, given the uncompressed map. */
  method AttachLocations(code: Bytes, locations: seq<Location>) returns (results: map<nat, Location>)
    ensures Attached(Bytecode.Starts(code), locations, results)
  {
    results := map[];
    var idx, srcmapIdx := 0, 0;
    ghost var seen: seq<nat> := [];
    while idx < |code|
      invariant |seen| == srcmapIdx && Attached(seen, locations, results)
      invariant forall k :: 0 <= k < |seen| ==> seen[k] < idx
      invariant seen + Bytecode.StartsFrom(code, idx) == Bytecode.Starts(code)
      decreases |code| - idx
    {
      Bytecode.StartsStep(code, idx);
      ghost var rest := Bytecode.StartsFrom(code, idx + Bytecode.Width(code[idx]));
      assert seen + ([idx] + rest) == (seen + [idx]) + rest;
      AttachedSnoc(seen, locations, results, idx);
      var opcode := code[idx];
      if srcmapIdx < |locations| {
        results := results[idx := locations[srcmapIdx]];
      }
      seen := seen + [idx];
      idx := if 0x60 <= opcode <= 0x7f then idx + (opcode - 0x5e) else idx + 1;
      srcmapIdx := srcmapIdx + 1;
    }
  }

  /** `decode_instructions`. */
  method DecodeInstructions(code: Bytes, text: string, files: seq<string>) returns (results: Option<map<nat, Location>>)
    ensures results.Some? <==> AllReadable(Split(text, ';'))
    ensures results.Some? ==> Attached(Bytecode.Starts(code), Locations(Split(text, ';'), files), results.value)
  {
    var locations := UncompressSrcmapSingle(text, files);
    if locations.None? {
      return None;
    }
    var m := AttachLocations(code, locations.value);
    results := Some(m);
  }
}
