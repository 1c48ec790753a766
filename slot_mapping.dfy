/**
 * Tab-to-slot mapping (the cache builder script reproduced in
 * test/test_slot_mapping.py, and the per-slot reader of ClaudeBar.sh).
 *
 * The writer keeps the iTerm TTYs, in tab order, that run a Claude process,
 * exports them as a comma-joined list of short names, and gives icon slot N
 * the TTY at 1-based position count - N + 1: the menu bar draws icons right
 * to left, so slot 1 (rightmost icon) is the last live tab and slot count
 * (leftmost icon) the first. A reader for slot N hides its icon when the
 * cache is missing or N exceeds SLOT_COUNT.
 */
module SlotMapping {
  import opened Wrappers

  const DevPrefix: string := "/dev/"

  /** `${t#/dev/}`: the TTY without a leading `/dev/`, unchanged otherwise. */
  function ShortName(t: string): string
  {
    if |t| >= |DevPrefix| && t[..|DevPrefix|] == DevPrefix then t[|DevPrefix|..] else t
  }

  /** The short name is a suffix of the TTY; it is what follows `/dev/` when
      the TTY starts with it. */
  lemma ShortNameIsSuffix(t: string)
    ensures |ShortName(t)| <= |t| && ShortName(t) == t[|t| - |ShortName(t)|..]
    ensures |t| >= |DevPrefix| && t[..|DevPrefix|] == DevPrefix ==> DevPrefix + ShortName(t) == t
  {
    if |t| >= |DevPrefix| && t[..|DevPrefix|] == DevPrefix {
      assert t == t[..|DevPrefix|] + t[|DevPrefix|..];
    }
  }

  /** Removing the prefix gives back the device name. */
  lemma ShortNameOfDevice(n: string)
    ensures ShortName(DevPrefix + n) == n
  {
    var t := DevPrefix + n;
    assert t[..|DevPrefix|] == DevPrefix;
    assert t[|DevPrefix|..] == n;
  }

  /** PID_BY_TTY: the Claude process id found on each TTY. */
  type PidMap = map<string, string>

  /** `[[ -n "${PID_BY_TTY[$t]}" ]]`: the TTY has a non-empty PID entry. */
  predicate HasPid(pids: PidMap, t: string)
  {
    t in pids && pids[t] != ""
  }

  /** `${PID_BY_TTY[$t]}`: an unset entry reads as "". */
  function PidOf(pids: PidMap, t: string): (pid: string)
    ensures pid != "" <==> HasPid(pids, t)
    ensures pid != "" ==> pids[t] == pid
  {
    if t in pids then pids[t] else ""
  }

  /** CLAUDE_TTYS: the tabs, in order, whose TTY has a PID. */
  function LiveSessions(tabs: seq<string>, pids: PidMap): (live: seq<string>)
    ensures |live| <= |tabs|
    ensures forall x :: x in live <==> x in tabs && HasPid(pids, x)
  {
    if tabs == [] then []
    else
      var init := tabs[..|tabs| - 1];
      var last := tabs[|tabs| - 1];
      assert tabs == init + [last];
      LiveSessions(init, pids) + (if HasPid(pids, last) then [last] else [])
  }

  /** The filter loop: `CLAUDE_TTYS+=("$t")` for each tab with a PID. */
  method FilterLive(tabs: seq<string>, pids: PidMap) returns (live: seq<string>)
    ensures live == LiveSessions(tabs, pids)
  {
    live := [];
    for i := 0 to |tabs|
      invariant live == LiveSessions(tabs[..i], pids)
    {
      assert tabs[..i + 1][..i] == tabs[..i];
      if HasPid(pids, tabs[i]) {
        live := live + [tabs[i]];
      }
    }
    assert tabs[..|tabs|] == tabs;
  }

  /** The positions, in the tab list, of the tabs whose TTY has a PID. */
  function LivePositions(tabs: seq<string>, pids: PidMap): seq<nat>
  {
    if tabs == [] then []
    else
      LivePositions(tabs[..|tabs| - 1], pids)
      + (if HasPid(pids, tabs[|tabs| - 1]) then [|tabs| - 1] else [])
  }

  lemma {:induction false} LivePositionsBounded(tabs: seq<string>, pids: PidMap)
    ensures |LivePositions(tabs, pids)| == |LiveSessions(tabs, pids)|
    ensures forall k :: 0 <= k < |LivePositions(tabs, pids)| ==> LivePositions(tabs, pids)[k] < |tabs|
  {
    if tabs != [] {
      LivePositionsBounded(tabs[..|tabs| - 1], pids);
    }
  }

  lemma {:induction false} LivePositionsIncreasing(tabs: seq<string>, pids: PidMap)
    ensures forall k, l :: 0 <= k < l < |LivePositions(tabs, pids)|
              ==> LivePositions(tabs, pids)[k] < LivePositions(tabs, pids)[l]
  {
    if tabs != [] {
      var init := tabs[..|tabs| - 1];
      LivePositionsIncreasing(init, pids);
      LivePositionsBounded(init, pids);
    }
  }

  lemma {:induction false} LivePositionsSelect(tabs: seq<string>, pids: PidMap)
    ensures |LivePositions(tabs, pids)| == |LiveSessions(tabs, pids)|
    ensures forall k :: 0 <= k < |LivePositions(tabs, pids)| ==>
              LivePositions(tabs, pids)[k] < |tabs|
              && tabs[LivePositions(tabs, pids)[k]] == LiveSessions(tabs, pids)[k]
  {
    LivePositionsBounded(tabs, pids);
    if tabs != [] {
      var init := tabs[..|tabs| - 1];
      LivePositionsSelect(init, pids);
      LivePositionsBounded(init, pids);
      var pos, prev := LivePositions(tabs, pids), LivePositions(init, pids);
      var live, prevLive := LiveSessions(tabs, pids), LiveSessions(init, pids);
      forall k | 0 <= k < |pos| ensures tabs[pos[k]] == live[k] {
        if k < |prev| {
          assert pos[k] == prev[k] && live[k] == prevLive[k];
          assert tabs[prev[k]] == init[prev[k]];
        }
      }
    }
  }

  lemma {:induction false} LivePositionsExact(tabs: seq<string>, pids: PidMap, p: int)
    requires 0 <= p < |tabs|
    ensures p in LivePositions(tabs, pids) <==> HasPid(pids, tabs[p])
  {
    var init := tabs[..|tabs| - 1];
    var last := |tabs| - 1;
    LivePositionsBounded(init, pids);
    if p < last {
      LivePositionsExact(init, pids, p);
      assert init[p] == tabs[p];
    }
  }

  /**
   * The live list is the subsequence of the tabs at exactly the positions
   * whose TTY has a PID: `pos` lists those positions in increasing order,
   * and the k-th live TTY is the tab at `pos[k]`.
   */
  lemma LiveIsOrderedSubsequence(tabs: seq<string>, pids: PidMap)
    returns (pos: seq<nat>)
    ensures |pos| == |LiveSessions(tabs, pids)|
    ensures forall k :: 0 <= k < |pos| ==>
              pos[k] < |tabs| && tabs[pos[k]] == LiveSessions(tabs, pids)[k]
    ensures forall k, l :: 0 <= k < l < |pos| ==> pos[k] < pos[l]
    ensures forall p :: 0 <= p < |tabs| ==> (p in pos <==> HasPid(pids, tabs[p]))
  {
    pos := LivePositions(tabs, pids);
    LivePositionsSelect(tabs, pids);
    LivePositionsIncreasing(tabs, pids);
    forall p | 0 <= p < |tabs| ensures p in pos <==> HasPid(pids, tabs[p]) {
      LivePositionsExact(tabs, pids, p);
    }
  }

  /** `mapSlot`: the TTY that icon slot `n` shows, None when it hides. No
      slot shows anything outside 1..count, and what a slot shows is live. */
  function MapSlot(live: seq<string>, n: int): (r: Option<string>)
    ensures r.Some? <==> 1 <= n <= |live|
    ensures r.Some? ==> r.value in live
  {
    if 1 <= n <= |live| then Some(live[|live| - n]) else None
  }

  predicate Distinct(s: seq<string>)
  {
    forall i, j :: 0 <= i < j < |s| ==> s[i] != s[j]
  }

  /**
   * Slots 1..count cover the live list exactly once: the tab at 0-based
   * position p is shown by slot count - p, and by no other slot.
   */
  lemma SlotOfPosition(live: seq<string>, p: int)
    requires Distinct(live) && 0 <= p < |live|
    ensures MapSlot(live, |live| - p) == Some(live[p])
    ensures forall n :: MapSlot(live, n) == Some(live[p]) ==> n == |live| - p
  {
  }

  /** Icons read left to right follow the tabs left to right: a higher slot
      (further left in the menu bar) shows a tab further left. */
  lemma IconOrderFollowsTabOrder(tabs: seq<string>, pids: PidMap, n: int, m: int)
    returns (p: nat, q: nat)
    requires 1 <= n < m <= |LiveSessions(tabs, pids)|
    ensures p < q < |tabs|
    ensures MapSlot(LiveSessions(tabs, pids), m) == Some(tabs[p])
    ensures MapSlot(LiveSessions(tabs, pids), n) == Some(tabs[q])
  {
    var live := LiveSessions(tabs, pids);
    var pos := LivePositions(tabs, pids);
    LivePositionsSelect(tabs, pids);
    LivePositionsIncreasing(tabs, pids);
    p, q := pos[|live| - m], pos[|live| - n];
  }

  /** The TTYs that some slot 1..count shows. */
  function MappedTtys(live: seq<string>): set<string>
  {
    set n | 1 <= n <= |live| :: MapSlot(live, n).value
  }

  /** Every live TTY is shown by some slot, and only live TTYs are. */
  lemma MappedTtysAreLive(live: seq<string>)
    ensures MappedTtys(live) == set x | x in live
  {
    forall x | x in live ensures x in MappedTtys(live) {
      var p :| 0 <= p < |live| && live[p] == x;
      assert MapSlot(live, |live| - p) == Some(x);
    }
  }

  lemma {:induction false} LiveSessionsDistinct(tabs: seq<string>, pids: PidMap)
    requires Distinct(tabs)
    ensures Distinct(LiveSessions(tabs, pids))
  {
    if tabs != [] {
      var init := tabs[..|tabs| - 1];
      assert Distinct(init);
      LiveSessionsDistinct(init, pids);
    }
  }

  lemma {:induction false} DistinctCardinality(s: seq<string>)
    requires Distinct(s)
    ensures |set x | x in s| == |s|
  {
    if s != [] {
      var init := s[..|s| - 1];
      assert Distinct(init);
      DistinctCardinality(init);
      assert (set x | x in s) == (set x | x in init) + {s[|s| - 1]};
    }
  }

  /**
   * Reordering the tabs without changing which TTYs they hold changes only
   * which slot shows which TTY: the slot count and the set of TTYs shown
   * stay the same.
   */
  lemma ReorderKeepsMappedSet(tabs1: seq<string>, tabs2: seq<string>, pids: PidMap)
    requires Distinct(tabs1) && Distinct(tabs2)
    requires forall x :: x in tabs1 <==> x in tabs2
    ensures |LiveSessions(tabs1, pids)| == |LiveSessions(tabs2, pids)|
    ensures MappedTtys(LiveSessions(tabs1, pids)) == MappedTtys(LiveSessions(tabs2, pids))
  {
    var live1, live2 := LiveSessions(tabs1, pids), LiveSessions(tabs2, pids);
    assert (set x | x in live1) == (set x | x in live2);
    LiveSessionsDistinct(tabs1, pids);
    LiveSessionsDistinct(tabs2, pids);
    DistinctCardinality(live1);
    DistinctCardinality(live2);
    MappedTtysAreLive(live1);
    MappedTtysAreLive(live2);
  }

  // ---------------------------------------------------------------------
  // ACTIVE_CLAUDE_TTYS

  /** `${ACC:+$ACC,}<short>`: a comma goes in only after a non-empty
      accumulator. */
  function AppendActive(acc: string, short: string): string
  {
    (if acc == "" then "" else acc + ",") + short
  }

  /** ACTIVE_CLAUDE_TTYS as the loop accumulates it over the live list. */
  function ActiveList(live: seq<string>): string
  {
    if live == [] then ""
    else AppendActive(ActiveList(live[..|live| - 1]), ShortName(live[|live| - 1]))
  }

  lemma AppendActiveLength(acc: string, short: string)
    ensures |AppendActive(acc, short)| == |acc| + |short| + (if acc == "" then 0 else 1)
  {
  }

  /** The active list is empty exactly when every live TTY's short name is. */
  lemma {:induction false} ActiveListEmpty(live: seq<string>)
    ensures ActiveList(live) == "" <==> forall k :: 0 <= k < |live| ==> ShortName(live[k]) == ""
  {
    if live != [] {
      var init := live[..|live| - 1];
      var x := ShortName(live[|live| - 1]);
      ActiveListEmpty(init);
      AppendActiveLength(ActiveList(init), x);
      assert ActiveList(live) == AppendActive(ActiveList(init), x);
      assert (forall k :: 0 <= k < |live| ==> ShortName(live[k]) == "")
         <==> (forall k :: 0 <= k < |init| ==> ShortName(init[k]) == "") && x == "" by {
        assert forall k :: 0 <= k < |init| ==> init[k] == live[k];
      }
    }
  }

  /** The accumulation loop over CLAUDE_TTYS. */
  method JoinActive(live: seq<string>) returns (active: string)
    ensures active == ActiveList(live)
  {
    active := "";
    for i := 0 to |live|
      invariant active == ActiveList(live[..i])
    {
      assert live[..i + 1][..i] == live[..i];
      active := (if active == "" then "" else active + ",") + ShortName(live[i]);
    }
    assert live[..|live|] == live;
  }

  function ShortNames(live: seq<string>): seq<string>
  {
    seq(|live|, k requires 0 <= k < |live| => ShortName(live[k]))
  }

  lemma ShortNamesSnoc(live: seq<string>)
    requires |live| > 0
    ensures ShortNames(live) == ShortNames(live[..|live| - 1]) + [ShortName(live[|live| - 1])]
  {
  }

  /** Comma-joining: the names with one comma between neighbours. */
  function Join(xs: seq<string>): string
  {
    if |xs| == 0 then ""
    else if |xs| == 1 then xs[0]
    else xs[0] + "," + Join(xs[1..])
  }

  lemma {:induction false} JoinSnoc(xs: seq<string>, y: string)
    requires |xs| >= 1
    ensures Join(xs + [y]) == Join(xs) + "," + y
  {
    if |xs| > 1 {
      assert (xs + [y])[1..] == xs[1..] + [y];
      JoinSnoc(xs[1..], y);
    }
  }

  /** When the first short name is non-empty, the accumulated list is the
      comma-join of the short names, in live order. */
  lemma {:induction false} ActiveListIsJoin(live: seq<string>)
    requires |live| > 0 ==> ShortName(live[0]) != ""
    ensures ActiveList(live) == Join(ShortNames(live))
  {
    if |live| > 1 {
      var init := live[..|live| - 1];
      var x := ShortName(live[|live| - 1]);
      assert init[0] == live[0];
      assert ActiveList(init) != "" by {
        ActiveListEmpty(init);
      }
      ActiveListIsJoin(init);
      assert ActiveList(live) == ActiveList(init) + "," + x;
      ShortNamesSnoc(live);
      JoinSnoc(ShortNames(init), x);
    } else if |live| == 1 {
      assert live[..0] == [];
    }
  }

  /** Position of the first comma in `s`, or |s| when there is none. */
  function CommaIndex(s: string): (i: nat)
    ensures i <= |s|
    ensures forall j :: 0 <= j < i ==> s[j] != ','
    ensures i < |s| ==> s[i] == ','
  {
    if s == [] then 0
    else if s[0] == ',' then 0
    else 1 + CommaIndex(s[1..])
  }

  /** `s.split(",")`: the comma-separated fields (one field for ""). There
      is always at least one field and no field holds a comma. */
  function Split(s: string): (fields: seq<string>)
    ensures |fields| >= 1
    ensures forall k :: 0 <= k < |fields| ==> ',' !in fields[k]
    decreases |s|
  {
    var i := CommaIndex(s);
    if i == |s| then [s] else [s[..i]] + Split(s[i + 1..])
  }

  /** Joining the fields of a split with commas gives back the string. */
  lemma {:induction false} JoinSplit(s: string)
    ensures Join(Split(s)) == s
    decreases |s|
  {
    var i := CommaIndex(s);
    if i < |s| {
      var rest := s[i + 1..];
      JoinSplit(rest);
      var fields := Split(s);
      assert fields == [s[..i]] + Split(rest);
      assert fields[1..] == Split(rest);
      assert Join(fields) == s[..i] + "," + Join(Split(rest));
      assert s == s[..i] + "," + rest;
    }
  }

  lemma {:induction false} CommaIndexAfter(x: string, rest: string)
    requires ',' !in x
    ensures CommaIndex(x + "," + rest) == |x|
  {
    var s := x + "," + rest;
    var i := CommaIndex(s);
    assert s[|x|] == ',';
  }

  /** Splitting a comma-join of comma-free names gives the names back. */
  lemma {:induction false} SplitJoin(xs: seq<string>)
    requires |xs| >= 1
    requires forall k :: 0 <= k < |xs| ==> ',' !in xs[k]
    ensures Split(Join(xs)) == xs
  {
    if |xs| > 1 {
      var s := Join(xs);
      var rest := Join(xs[1..]);
      CommaIndexAfter(xs[0], rest);
      assert s[..|xs[0]|] == xs[0];
      assert s[|xs[0]| + 1..] == rest;
      SplitJoin(xs[1..]);
      assert xs == [xs[0]] + xs[1..];
    }
  }

  /** Reading ACTIVE_CLAUDE_TTYS back with split(",") gives the short names
      of the live TTYs in tab order, when they are comma-free and the first
      is non-empty. */
  lemma ActiveListSplitsIntoShortNames(live: seq<string>)
    requires |live| >= 1 && ShortName(live[0]) != ""
    requires forall k :: 0 <= k < |live| ==> ',' !in ShortName(live[k])
    ensures Split(ActiveList(live)) == ShortNames(live)
  {
    ActiveListIsJoin(live);
    SplitJoin(ShortNames(live));
  }

  // ---------------------------------------------------------------------
  // The slot entries and the cache

  /** SLOT_<slot>_TTY, SLOT_<slot>_PID and SLOT_<slot>_TTY_SHORT. */
  datatype SlotEntry = SlotEntry(slot: nat, tty: string, pid: string, short: string)

  /** The slot loop: for slot = 1..count, the TTY at 1-based index
      count - slot + 1 of CLAUDE_TTYS, with its PID and short name. */
  method EmitSlots(live: seq<string>, pids: PidMap) returns (entries: seq<SlotEntry>)
    ensures |entries| == |live|
    ensures forall k :: 0 <= k < |entries| ==>
              && entries[k].slot == k + 1
              && MapSlot(live, k + 1) == Some(entries[k].tty)
              && entries[k].pid == PidOf(pids, entries[k].tty)
              && entries[k].short == ShortName(entries[k].tty)
  {
    var count := |live|;
    entries := [];
    var slot := 1;
    while slot <= count
      invariant 1 <= slot <= count + 1
      invariant |entries| == slot - 1
      invariant forall k :: 0 <= k < |entries| ==>
                  && entries[k].slot == k + 1
                  && MapSlot(live, k + 1) == Some(entries[k].tty)
                  && entries[k].pid == PidOf(pids, entries[k].tty)
                  && entries[k].short == ShortName(entries[k].tty)
    {
      var idx := count - slot + 1;
      var ttyDev := live[idx - 1];
      entries := entries + [SlotEntry(slot, ttyDev, PidOf(pids, ttyDev), ShortName(ttyDev))];
      slot := slot + 1;
    }
  }

  /** What the cache file holds: SLOT_COUNT, ACTIVE_CLAUDE_TTYS and the
      slot entries. */
  datatype Cache = Cache(slotCount: nat, active: string, entries: seq<SlotEntry>)

  /** The entries for slots 1..count, slot k + 1 at position k. */
  function SlotEntries(live: seq<string>, pids: PidMap): seq<SlotEntry>
  {
    seq(|live|, k requires 0 <= k < |live| =>
          SlotEntry(k + 1, live[|live| - 1 - k], PidOf(pids, live[|live| - 1 - k]),
                    ShortName(live[|live| - 1 - k])))
  }

  /** The cache the writer builds from the tab order and the PID map. */
  function CacheFor(tabs: seq<string>, pids: PidMap): Cache
  {
    var live := LiveSessions(tabs, pids);
    Cache(|live|, ActiveList(live), SlotEntries(live, pids))
  }

  /** The cache builder: filter, count, export the active list, emit the
      slots. SLOT_COUNT is the number of live tabs and no entry is emitted
      for a slot outside 1..SLOT_COUNT. */
  method BuildCache(tabs: seq<string>, pids: PidMap) returns (c: Cache)
    ensures c == CacheFor(tabs, pids)
    ensures c.slotCount == |LiveSessions(tabs, pids)|
    ensures forall k :: 0 <= k < |c.entries| ==> 1 <= c.entries[k].slot <= c.slotCount
  {
    var live := FilterLive(tabs, pids);
    var count := |live|;
    var active := JoinActive(live);
    var entries := EmitSlots(live, pids);
    c := Cache(count, active, entries);
  }

  // ---------------------------------------------------------------------
  // The per-slot reader

  /** What a slot plugin does: hide its icon, or show the TTY, PID, short
      name and active list it read. */
  datatype View = Hidden | Shown(tty: string, pid: string, short: string, active: string)

  /** The entry for slot `n`, if the cache has one. */
  function FindSlot(entries: seq<SlotEntry>, n: nat): (r: Option<SlotEntry>)
    ensures r.Some? ==> r.value in entries && r.value.slot == n
    ensures r.None? ==> forall k :: 0 <= k < |entries| ==> entries[k].slot != n
  {
    if entries == [] then None
    else if entries[0].slot == n then Some(entries[0])
    else FindSlot(entries[1..], n)
  }

  /** The reader for plugin slot `slotNum`: a missing cache or
      SLOT_COUNT < SLOT_NUM hides; otherwise the SLOT_<n>_* values are read,
      unset ones as "". */
  function ReadSlot(cache: Option<Cache>, slotNum: nat): (v: View)
    ensures v == Hidden <==> cache.None? || cache.value.slotCount < slotNum
    ensures v.Shown? ==> v.active == cache.value.active
  {
    match cache
    case None => Hidden
    case Some(c) =>
      if c.slotCount < slotNum then Hidden
      else
        match FindSlot(c.entries, slotNum)
        case Some(e) => Shown(e.tty, e.pid, e.short, c.active)
        case None => Shown("", "", "", c.active)
  }

  /** In the writer's entries, slot n is found at position n - 1 when
      1 <= n <= count, and not at all otherwise. */
  lemma FindSlotInEntries(live: seq<string>, pids: PidMap, n: nat)
    ensures 1 <= n <= |live| ==> FindSlot(SlotEntries(live, pids), n) == Some(SlotEntries(live, pids)[n - 1])
    ensures n == 0 || n > |live| ==> FindSlot(SlotEntries(live, pids), n) == None
  {
    var entries := SlotEntries(live, pids);
    assert forall k :: 0 <= k < |entries| ==> entries[k].slot == k + 1;
  }

  /** The reader over a cache whose entries the writer emitted for `live`:
      slot 1 <= n <= count shows the TTY `mapSlot` gives, with its PID and
      short name; n > count hides; slot 0 shows empty fields. */
  lemma ReaderOverEntries(live: seq<string>, pids: PidMap, active: string, n: nat)
    ensures var v := ReadSlot(Some(Cache(|live|, active, SlotEntries(live, pids))), n);
            && (n > |live| <==> v == Hidden)
            && (1 <= n <= |live| ==>
                  && v.Shown?
                  && MapSlot(live, n) == Some(v.tty)
                  && v.pid == PidOf(pids, v.tty)
                  && v.short == ShortName(v.tty)
                  && v.active == active)
            && (n == 0 ==> v == Shown("", "", "", active))
  {
    FindSlotInEntries(live, pids, n);
    if 1 <= n <= |live| {
      var e := SlotEntries(live, pids)[n - 1];
      assert e.tty == live[|live| - n];
    }
  }

  /**
   * A reader of the writer's cache shows, for slot 1 <= n <= count, the TTY
   * `mapSlot` gives with that TTY's PID and short name; for n > count it
   * hides. (Slot 0 is not hidden: it reads unset entries as "".)
   */
  lemma ReaderShowsMappedSlot(tabs: seq<string>, pids: PidMap, n: nat)
    ensures var live := LiveSessions(tabs, pids);
            var v := ReadSlot(Some(CacheFor(tabs, pids)), n);
            && (n > |live| <==> v == Hidden)
            && (1 <= n <= |live| ==>
                  && v.Shown?
                  && MapSlot(live, n) == Some(v.tty)
                  && v.pid == PidOf(pids, v.tty)
                  && v.short == ShortName(v.tty)
                  && v.active == ActiveList(live))
            && (n == 0 ==> v == Shown("", "", "", ActiveList(live)))
  {
    var live := LiveSessions(tabs, pids);
    ReaderOverEntries(live, pids, ActiveList(live), n);
  }

  // ---------------------------------------------------------------------
  // Scenarios from test/test_slot_mapping.py

  /** The live list for tabs ttys009, ttys000, ttys002 with Claude on the
      first two. */
  lemma TwoSessionsLive(tabs: seq<string>, pids: PidMap)
    requires tabs == ["/dev/ttys009", "/dev/ttys000", "/dev/ttys002"]
    requires pids == map["/dev/ttys009" := "1000", "/dev/ttys000" := "1001"]
    ensures LiveSessions(tabs, pids) == ["/dev/ttys009", "/dev/ttys000"]
  {
    assert HasPid(pids, "/dev/ttys009") && HasPid(pids, "/dev/ttys000");
    assert !HasPid(pids, "/dev/ttys002");
    assert tabs[..2] == ["/dev/ttys009", "/dev/ttys000"];
    assert tabs[..2][..1] == ["/dev/ttys009"];
    assert tabs[..2][..1][..0] == [];
    assert LiveSessions(tabs[..2][..1], pids) == ["/dev/ttys009"];
  }

  /** The active list of that live list. */
  lemma TwoSessionsActive(live: seq<string>)
    requires live == ["/dev/ttys009", "/dev/ttys000"]
    ensures ActiveList(live) == "ttys009,ttys000"
  {
    ShortNameOfDevice("ttys009");
    ShortNameOfDevice("ttys000");
    assert live[..1] == ["/dev/ttys009"];
    assert live[..1][..0] == [];
    assert ActiveList(live[..1]) == "ttys009";
  }

  /** Tabs ttys009, ttys000, ttys002 with Claude on the first two: slot 1
      (right) shows ttys000, slot 2 (left) ttys009, slot 3 hides. */
  lemma TwoSessionsScenario()
    ensures var tabs := ["/dev/ttys009", "/dev/ttys000", "/dev/ttys002"];
            var pids := map["/dev/ttys009" := "1000", "/dev/ttys000" := "1001"];
            var live := LiveSessions(tabs, pids);
            && live == ["/dev/ttys009", "/dev/ttys000"]
            && MapSlot(live, 1) == Some("/dev/ttys000")
            && MapSlot(live, 2) == Some("/dev/ttys009")
            && ReadSlot(Some(CacheFor(tabs, pids)), 3) == Hidden
            && ActiveList(live) == "ttys009,ttys000"
  {
    var tabs := ["/dev/ttys009", "/dev/ttys000", "/dev/ttys002"];
    var pids := map["/dev/ttys009" := "1000", "/dev/ttys000" := "1001"];
    TwoSessionsLive(tabs, pids);
    TwoSessionsActive(LiveSessions(tabs, pids));
    ReaderShowsMappedSlot(tabs, pids, 3);
  }
}
