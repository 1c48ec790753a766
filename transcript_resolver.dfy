/**
 * Transcript claim resolution (`resolve` in src/resolve_transcript.py).
 *
 * Several terminal sessions may write their transcripts into the same
 * project directory, and nothing in a transcript's name says whose it is.
 * Each session's hook keeps a state record `session-<tty>.json` naming its
 * transcript. To find the transcript of one TTY, the resolver trusts that
 * TTY's own record when it names an existing file; otherwise it takes the
 * most recently modified transcript that no other live session claims.
 *
 * The filesystem is a snapshot: what `json.load` made of each record file,
 * which files exist, what the transcript glob listed and their mtimes.
 */
module TranscriptResolver {
  import opened Wrappers
  import opened Recency

  const RecordPrefix: string := "session-"
  const RecordSuffix: string := ".json"
  const TranscriptSuffix: string := ".jsonl"

  /** The name of the state record kept for `tty`. */
  function RecordName(tty: string): (name: string)
    ensures |name| == |RecordPrefix| + |tty| + |RecordSuffix|
    ensures name[..|RecordPrefix|] == RecordPrefix
    ensures name[|RecordPrefix|..|name| - |RecordSuffix|] == tty
    ensures name[|name| - |RecordSuffix|..] == RecordSuffix
  {
    RecordPrefix + tty + RecordSuffix
  }

  /** The state-directory entries listed by the pattern `session-*.json`. */
  predicate IsRecordName(name: string)
  {
    && |name| >= |RecordPrefix| + |RecordSuffix|
    && name[..|RecordPrefix|] == RecordPrefix
    && name[|name| - |RecordSuffix|..] == RecordSuffix
  }

  /** The TTY a record belongs to: its name without `session-` and `.json`. */
  function TtyOf(name: string): (tty: string)
    requires IsRecordName(name)
    ensures RecordName(tty) == name
  {
    var tty := name[|RecordPrefix|..|name| - |RecordSuffix|];
    assert name == name[..|RecordPrefix|] + tty + name[|name| - |RecordSuffix|..];
    tty
  }

  /** Recovering the TTY from a record name inverts building the name. */
  lemma TtyOfRecordName(tty: string)
    ensures IsRecordName(RecordName(tty))
    ensures TtyOf(RecordName(tty)) == tty
  {
    var name := RecordName(tty);
    assert name[..|RecordPrefix|] == RecordPrefix;
    assert name[|name| - |RecordSuffix|..] == RecordSuffix;
    assert name[|RecordPrefix|..|name| - |RecordSuffix|] == tty;
  }

  /** Two TTYs never share a record. */
  lemma RecordNameInjective(a: string, b: string)
    requires RecordName(a) == RecordName(b)
    ensures a == b
  {
    TtyOfRecordName(a);
    TtyOfRecordName(b);
  }

  predicate EndsWith(s: string, suffix: string)
  {
    |s| >= |suffix| && s[|s| - |suffix|..] == suffix
  }

  /**
   * What the resolver sees of the filesystem.
   *  - records: each file of the state directory by base name, with the
   *    `transcript_path` that `json.load(...).get("transcript_path", "")`
   *    gave, or None when reading or parsing it failed;
   *  - files: the paths for which `os.path.isfile` holds;
   *  - transcripts: what the glob `*.jsonl` listed in the project directory;
   *  - mtime: `os.path.getmtime` of the listed transcripts.
   */
  datatype Snapshot = Snapshot(
    records: map<string, Option<string>>,
    files: set<string>,
    transcripts: seq<string>,
    mtime: MTimes)
  {
    /** Every listed transcript still has a modification time (otherwise
        `os.path.getmtime` raises while sorting). */
    predicate Valid()
    {
      Timed(transcripts, mtime)
    }

    /** Every listed entry ends in `.jsonl`, as the glob guarantees; in
        particular none is "", so "" can only mean "no match". */
    predicate GlobListed()
    {
      forall i :: 0 <= i < |transcripts| ==> EndsWith(transcripts[i], TranscriptSuffix)
    }
  }

  /** The transcript a record file names, when the record is usable: it
      exists, parsed, and its non-empty `transcript_path` is an existing file. */
  function Usable(s: Snapshot, name: string): (r: Option<string>)
    ensures r.Some? ==> r.value != "" && r.value in s.files
  {
    if name in s.records && s.records[name].Some?
       && s.records[name].value != "" && s.records[name].value in s.files
    then s.records[name]
    else None
  }

  /** The transcript named by `tty`'s own usable record. */
  function OwnTranscript(s: Snapshot, tty: string): (r: Option<string>)
    ensures r.Some? ==> && RecordName(tty) in s.records
                        && s.records[RecordName(tty)] == r
                        && r.value != "" && r.value in s.files
  {
    Usable(s, RecordName(tty))
  }

  /** The record files the glob `session-*.json` lists. */
  function RecordListing(s: Snapshot): set<string>
  {
    set name | name in s.records && IsRecordName(name)
  }

  /** Record `name` claims its transcript against `tty`: it belongs to a
      different TTY, that TTY is active, and the record is usable. */
  predicate ClaimsAgainst(s: Snapshot, tty: string, active: set<string>, name: string)
  {
    IsRecordName(name) && TtyOf(name) != tty && TtyOf(name) in active && Usable(s, name).Some?
  }

  /** The transcripts claimed against `tty` by the records among `names`. */
  function ClaimedAmong(s: Snapshot, tty: string, active: set<string>, names: set<string>): set<string>
  {
    set name | name in names && ClaimsAgainst(s, tty, active, name) :: Usable(s, name).value
  }

  /** The claimed set the fallback path builds. */
  function Claimed(s: Snapshot, tty: string, active: set<string>): (c: set<string>)
    ensures forall ct :: ct in c ==> ct != "" && ct in s.files
  {
    ClaimedAmong(s, tty, active, RecordListing(s))
  }

  /** The position of the first entry of `order` outside `claimed`, or
      `|order|` when there is none. */
  function FirstUnclaimed(order: seq<string>, claimed: set<string>): (k: nat)
    ensures k <= |order|
    ensures forall j :: 0 <= j < k ==> order[j] in claimed
    ensures k < |order| ==> order[k] !in claimed
  {
    if order == [] then 0
    else if order[0] !in claimed then 0
    else 1 + FirstUnclaimed(order[1..], claimed)
  }

  /** The fallback: the most recent transcript not claimed against `tty`. */
  function Fallback(s: Snapshot, tty: string, active: set<string>): (r: string)
    requires s.Valid()
    ensures r != "" ==> r in s.transcripts && r !in Claimed(s, tty, active)
  {
    var order := ByRecency(s.transcripts, s.mtime);
    var k := FirstUnclaimed(order, Claimed(s, tty, active));
    if k < |order| then
      ByRecencyMembers(s.transcripts, s.mtime, order[k]);
      order[k]
    else ""
  }

  /** What `resolve(tty, ...)` returns on the snapshot `s`. */
  function Resolution(s: Snapshot, tty: string, active: set<string>): (r: string)
    requires s.Valid()
    ensures OwnTranscript(s, tty).Some? ==> r == OwnTranscript(s, tty).value && r in s.files
    ensures OwnTranscript(s, tty).None? && r != "" ==>
              r in s.transcripts && r !in Claimed(s, tty, active)
  {
    match OwnTranscript(s, tty)
    case Some(tp) => tp
    case None => Fallback(s, tty, active)
  }

  /** Adding one record file to those already scanned. */
  lemma ClaimedAmongStep(s: Snapshot, tty: string, active: set<string>, done: set<string>, name: string)
    ensures ClaimedAmong(s, tty, active, done + {name})
         == ClaimedAmong(s, tty, active, done)
            + (if ClaimsAgainst(s, tty, active, name) then {Usable(s, name).value} else {})
  {
  }

  /** The loop that builds the claimed set from the listed record files. */
  method CollectClaims(tty: string, s: Snapshot, active: set<string>) returns (claimed: set<string>)
    ensures claimed == Claimed(s, tty, active)
  {
    claimed := {};
    var listing := RecordListing(s);
    var pending := listing;
    while pending != {}
      invariant pending <= listing
      invariant claimed == ClaimedAmong(s, tty, active, listing - pending)
      decreases pending
    {
      var f :| f in pending;
      ClaimedAmongStep(s, tty, active, listing - pending, f);
      assert listing - (pending - {f}) == (listing - pending) + {f};
      pending := pending - {f};
      var t := TtyOf(f);
      if t == tty || t !in active {
        continue;
      }
      var ct := s.records[f];
      if ct.Some? && ct.value != "" && ct.value in s.files {
        claimed := claimed + {ct.value};
      }
    }
  }

  /** The loop over the candidates in recency order that returns the first
      one outside `claimed`, or "" when every one is claimed. */
  method PickUnclaimed(order: seq<string>, claimed: set<string>) returns (r: string)
    ensures FirstUnclaimed(order, claimed) < |order| ==> r == order[FirstUnclaimed(order, claimed)]
    ensures FirstUnclaimed(order, claimed) == |order| ==> r == ""
  {
    var i := 0;
    while i < |order|
      invariant 0 <= i <= |order|
      invariant forall j :: 0 <= j < i ==> order[j] in claimed
    {
      if order[i] !in claimed {
        return order[i];
      }
      i := i + 1;
    }
    return "";
  }

  /** The resolver as the source runs it: the own-record fast path, then
      the claimed set, then the most recent unclaimed candidate. */
  method Resolve(tty: string, s: Snapshot, active: set<string>) returns (r: string)
    requires s.Valid()
    ensures r == Resolution(s, tty, active)
    ensures OwnTranscript(s, tty).Some? ==> r == OwnTranscript(s, tty).value
  {
    // 1) this TTY's own record
    var sf := RecordName(tty);
    if sf in s.records {
      var tp := s.records[sf];
      if tp.Some? && tp.value != "" && tp.value in s.files {
        return tp.value;
      }
    }
    // 2) transcripts claimed by other active sessions
    var claimed := CollectClaims(tty, s, active);
    // the most recent unclaimed transcript
    r := PickUnclaimed(ByRecency(s.transcripts, s.mtime), claimed);
  }

  // ---------------------------------------------------------------------
  // Properties of the resolution

  /** A transcript is claimed against `tty` exactly when some other, active
      TTY's own record is usable and names it. */
  lemma ClaimedIff(s: Snapshot, tty: string, active: set<string>, ct: string)
    ensures ct in Claimed(s, tty, active)
        <==> exists t :: t != tty && t in active && OwnTranscript(s, t) == Some(ct)
  {
    if ct in Claimed(s, tty, active) {
      var name :| name in RecordListing(s) && ClaimsAgainst(s, tty, active, name)
                  && Usable(s, name).value == ct;
      var t := TtyOf(name);
      assert OwnTranscript(s, t) == Some(ct);
    }
    if exists t :: t != tty && t in active && OwnTranscript(s, t) == Some(ct) {
      var t :| t != tty && t in active && OwnTranscript(s, t) == Some(ct);
      var name := RecordName(t);
      TtyOfRecordName(t);
      assert name in RecordListing(s) && ClaimsAgainst(s, tty, active, name);
    }
  }

  /** On the fallback path a non-empty result is a listed transcript that is
      not claimed, and every listed transcript considered before it (strictly
      newer, or as new and first by path) is claimed. */
  lemma FallbackIsMostRecentUnclaimed(s: Snapshot, tty: string, active: set<string>)
    requires s.Valid() && OwnTranscript(s, tty).None?
    ensures var r := Resolution(s, tty, active);
      r != "" ==>
        && r in s.transcripts
        && r !in Claimed(s, tty, active)
        && forall i :: 0 <= i < |s.transcripts| && Newer(s.transcripts[i], r, s.mtime)
             ==> s.transcripts[i] in Claimed(s, tty, active)
  {
    var order := ByRecency(s.transcripts, s.mtime);
    var claimed := Claimed(s, tty, active);
    var k := FirstUnclaimed(order, claimed);
    assert Resolution(s, tty, active) == if k < |order| then order[k] else "";
    if k < |order| {
      var r := order[k];
      ByRecencyMembers(s.transcripts, s.mtime, r);
      forall i | 0 <= i < |s.transcripts| && Newer(s.transcripts[i], r, s.mtime)
        ensures s.transcripts[i] in claimed
      {
        var c := s.transcripts[i];
        ByRecencyMembers(s.transcripts, s.mtime, c);
        var j :| 0 <= j < |order| && order[j] == c;
        NewerComesFirst(order, s.mtime, j, k);
      }
    }
  }

  /** In particular, every listed transcript with a strictly later mtime
      than the fallback's choice is claimed. */
  lemma FallbackSkipsOnlyClaimedNewer(s: Snapshot, tty: string, active: set<string>)
    requires s.Valid() && OwnTranscript(s, tty).None?
    ensures var r := Resolution(s, tty, active);
      r != "" ==>
        forall i :: 0 <= i < |s.transcripts| && s.mtime[s.transcripts[i]] > s.mtime[r]
          ==> s.transcripts[i] in Claimed(s, tty, active)
  {
    FallbackIsMostRecentUnclaimed(s, tty, active);
  }

  /** The result is "" exactly when the fallback runs and every listed
      transcript is claimed (also when none is listed). */
  lemma EmptyExactlyWhenAllClaimed(s: Snapshot, tty: string, active: set<string>)
    requires s.GlobListed() && s.Valid()
    ensures Resolution(s, tty, active) == ""
        <==> OwnTranscript(s, tty).None?
             && forall i :: 0 <= i < |s.transcripts| ==> s.transcripts[i] in Claimed(s, tty, active)
  {
    if OwnTranscript(s, tty).None? {
      var order := ByRecency(s.transcripts, s.mtime);
      var claimed := Claimed(s, tty, active);
      var k := FirstUnclaimed(order, claimed);
      assert Resolution(s, tty, active) == if k < |order| then order[k] else "";
      if k < |order| {
        ByRecencyMembers(s.transcripts, s.mtime, order[k]);
        var i :| 0 <= i < |s.transcripts| && s.transcripts[i] == order[k];
        assert EndsWith(s.transcripts[i], TranscriptSuffix);
      } else {
        forall i | 0 <= i < |s.transcripts| ensures s.transcripts[i] in claimed {
          ByRecencyMembers(s.transcripts, s.mtime, s.transcripts[i]);
        }
      }
    }
  }

  /** A session without a usable record never resolves to a transcript that
      another active session's usable record names. */
  lemma FallbackNeverSteals(s: Snapshot, tty: string, other: string, active: set<string>)
    requires s.Valid()
    requires OwnTranscript(s, tty).None?
    requires other != tty && other in active && OwnTranscript(s, other).Some?
    ensures Resolution(s, tty, active) != OwnTranscript(s, other).value
  {
    ClaimedIff(s, tty, active, OwnTranscript(s, other).value);
    FallbackIsMostRecentUnclaimed(s, tty, active);
  }

  /** A record that is missing, unparseable or names no existing file counts
      as absent: deleting it changes nothing. */
  lemma UnusableRecordIsAbsent(s: Snapshot, tty: string, active: set<string>, name: string)
    requires s.Valid() && Usable(s, name).None?
    ensures Resolution(s.(records := s.records - {name}), tty, active) == Resolution(s, tty, active)
  {
    var s' := s.(records := s.records - {name});
    assert forall n :: Usable(s', n) == Usable(s, n);
    assert Claimed(s', tty, active) == Claimed(s, tty, active) by {
      forall ct ensures ct in Claimed(s', tty, active) <==> ct in Claimed(s, tty, active) {
        ClaimedIff(s', tty, active, ct);
        ClaimedIff(s, tty, active, ct);
      }
    }
  }

  /** The record of a session that is no longer active (and is not the
      querying one) never blocks anything: deleting it changes nothing. */
  lemma DeadSessionReleased(s: Snapshot, tty: string, active: set<string>, dead: string)
    requires s.Valid() && dead != tty && dead !in active
    ensures Resolution(s.(records := s.records - {RecordName(dead)}), tty, active)
         == Resolution(s, tty, active)
  {
    var s' := s.(records := s.records - {RecordName(dead)});
    if RecordName(tty) == RecordName(dead) {
      RecordNameInjective(tty, dead);
    }
    assert OwnTranscript(s', tty) == OwnTranscript(s, tty);
    forall ct ensures ct in Claimed(s', tty, active) <==> ct in Claimed(s, tty, active) {
      ClaimedIff(s', tty, active, ct);
      ClaimedIff(s, tty, active, ct);
      forall t | t != dead ensures OwnTranscript(s', t) == OwnTranscript(s, t) {
        if RecordName(t) == RecordName(dead) {
          RecordNameInjective(t, dead);
        }
      }
    }
    assert Claimed(s', tty, active) == Claimed(s, tty, active);
  }

  /** Known limitation: sessions that both lack a usable record run the
      fallback against the same claimed set and get the same transcript. */
  lemma SimultaneousFallbacksCollide(s: Snapshot, a: string, b: string, active: set<string>)
    requires s.Valid() && OwnTranscript(s, a).None? && OwnTranscript(s, b).None?
    ensures Resolution(s, a, active) == Resolution(s, b, active)
  {
    forall ct ensures ct in Claimed(s, a, active) <==> ct in Claimed(s, b, active) {
      ClaimedIff(s, a, active, ct);
      ClaimedIff(s, b, active, ct);
    }
    assert Claimed(s, a, active) == Claimed(s, b, active);
  }

  /** The choice does not depend on the order the glob lists transcripts in:
      two listings of the same files resolve alike. */
  lemma ListingOrderIrrelevant(s1: Snapshot, s2: Snapshot, tty: string, active: set<string>)
    requires s1.Valid() && s2.Valid() && s1.GlobListed() && s2.GlobListed()
    requires s1.records == s2.records && s1.files == s2.files && s1.mtime == s2.mtime
    requires forall x :: x in s1.transcripts <==> x in s2.transcripts
    ensures Resolution(s1, tty, active) == Resolution(s2, tty, active)
  {
    if OwnTranscript(s1, tty).None? {
      assert Claimed(s1, tty, active) == Claimed(s2, tty, active);
      var r1 := Resolution(s1, tty, active);
      var r2 := Resolution(s2, tty, active);
      EmptyExactlyWhenAllClaimed(s1, tty, active);
      EmptyExactlyWhenAllClaimed(s2, tty, active);
      FallbackIsMostRecentUnclaimed(s1, tty, active);
      FallbackIsMostRecentUnclaimed(s2, tty, active);
      if r1 != "" && r2 != "" && r1 != r2 {
        var i1 :| 0 <= i1 < |s1.transcripts| && s1.transcripts[i1] == r2;
        var i2 :| 0 <= i2 < |s2.transcripts| && s2.transcripts[i2] == r1;
        NewerTotal(r1, r2, s1.mtime);
      }
    }
  }

  /** An unclaimed listed transcript newer than every other unclaimed one is
      what the fallback picks. */
  lemma NewestUnclaimedIsPicked(s: Snapshot, tty: string, active: set<string>, c: string)
    requires s.GlobListed() && s.Valid() && OwnTranscript(s, tty).None?
    requires c in s.transcripts && c !in Claimed(s, tty, active)
    requires forall i :: 0 <= i < |s.transcripts| && s.transcripts[i] != c
               && s.transcripts[i] !in Claimed(s, tty, active)
               ==> Newer(c, s.transcripts[i], s.mtime)
    ensures Resolution(s, tty, active) == c
  {
    EmptyExactlyWhenAllClaimed(s, tty, active);
    FallbackIsMostRecentUnclaimed(s, tty, active);
    var r := Resolution(s, tty, active);
    var ic :| 0 <= ic < |s.transcripts| && s.transcripts[ic] == c;
    assert r != "";
    var ir :| 0 <= ir < |s.transcripts| && s.transcripts[ir] == r;
    assert !Newer(c, r, s.mtime);
  }

  /** With no usable record anywhere nothing is claimed, and every session
      gets the newest listed transcript. */
  lemma NoUsableRecordPicksNewest(s: Snapshot, tty: string, active: set<string>, c: string)
    requires s.GlobListed() && s.Valid()
    requires forall t :: OwnTranscript(s, t) == None
    requires c in s.transcripts
    requires forall i :: 0 <= i < |s.transcripts| && s.transcripts[i] != c
               ==> Newer(c, s.transcripts[i], s.mtime)
    ensures Claimed(s, tty, active) == {}
    ensures Resolution(s, tty, active) == c
  {
    forall ct ensures ct !in Claimed(s, tty, active) {
      ClaimedIff(s, tty, active, ct);
    }
    NewestUnclaimedIsPicked(s, tty, active, c);
  }

  /** When exactly one listed transcript is unclaimed, the fallback picks it
      whatever the modification times. */
  lemma SoleUnclaimedIsPicked(s: Snapshot, tty: string, active: set<string>, c: string)
    requires s.GlobListed() && s.Valid() && OwnTranscript(s, tty).None?
    requires c in s.transcripts && c !in Claimed(s, tty, active)
    requires forall i :: 0 <= i < |s.transcripts| && s.transcripts[i] != c
               ==> s.transcripts[i] in Claimed(s, tty, active)
    ensures Resolution(s, tty, active) == c
  {
    NewestUnclaimedIsPicked(s, tty, active, c);
  }

  // ---------------------------------------------------------------------
  // Scenarios from test/test_resolve_transcript.py

  /** Session ttys000's record names a transcript that no longer exists,
      ttys009's names bbb.jsonl, the newer of the two listed transcripts. */
  function OneStaleSnapshot(): Snapshot
  {
    Snapshot(
      map["session-ttys000.json" := Some("/nonexistent/gone.jsonl"),
          "session-ttys009.json" := Some("/p/bbb.jsonl")],
      {"/p/aaa.jsonl", "/p/bbb.jsonl"},
      ["/p/bbb.jsonl", "/p/aaa.jsonl"],
      map["/p/bbb.jsonl" := 100.0, "/p/aaa.jsonl" := 95.0])
  }

  lemma OneStaleOwners()
    ensures var s := OneStaleSnapshot();
            && OwnTranscript(s, "ttys009") == Some("/p/bbb.jsonl")
            && OwnTranscript(s, "ttys000") == None
            && forall t :: OwnTranscript(s, t) != Some("/p/aaa.jsonl")
  {
    assert RecordName("ttys009") == "session-ttys009.json";
    assert RecordName("ttys000") == "session-ttys000.json";
  }

  lemma OneStaleClaims(active: set<string>)
    requires "ttys009" in active
    ensures var s := OneStaleSnapshot();
            && "/p/bbb.jsonl" in Claimed(s, "ttys000", active)
            && "/p/aaa.jsonl" !in Claimed(s, "ttys000", active)
  {
    var s := OneStaleSnapshot();
    OneStaleOwners();
    ClaimedIff(s, "ttys000", active, "/p/bbb.jsonl");
    ClaimedIff(s, "ttys000", active, "/p/aaa.jsonl");
  }

  /** Session A's record is stale, session B's is valid; B's transcript is
      the newer one. B keeps its own and A falls back to the older one. */
  lemma OneStaleDoesNotSteal()
    ensures var s := OneStaleSnapshot();
            var active := {"ttys000", "ttys009"};
            && s.Valid()
            && Resolution(s, "ttys009", active) == "/p/bbb.jsonl"
            && Resolution(s, "ttys000", active) == "/p/aaa.jsonl"
  {
    var s := OneStaleSnapshot();
    var active := {"ttys000", "ttys009"};
    assert s.GlobListed() by {
      assert EndsWith("/p/bbb.jsonl", TranscriptSuffix) && EndsWith("/p/aaa.jsonl", TranscriptSuffix);
    }
    OneStaleOwners();
    OneStaleClaims(active);
    SoleUnclaimedIsPicked(s, "ttys000", active, "/p/aaa.jsonl");
  }

  /** Both records name transcripts that no longer exist; new.jsonl is the
      newer of the two listed transcripts. */
  function BothStaleSnapshot(): Snapshot
  {
    Snapshot(
      map["session-ttys000.json" := Some("/nonexistent/x.jsonl"),
          "session-ttys009.json" := Some("/nonexistent/y.jsonl")],
      {"/p/new.jsonl", "/p/old.jsonl"},
      ["/p/old.jsonl", "/p/new.jsonl"],
      map["/p/new.jsonl" := 100.0, "/p/old.jsonl" := 95.0])
  }

  lemma BothStaleShape()
    ensures var s := BothStaleSnapshot();
            && s.Valid() && s.GlobListed()
            && s.transcripts == ["/p/old.jsonl", "/p/new.jsonl"]
            && Newer("/p/new.jsonl", "/p/old.jsonl", s.mtime)
            && forall t :: OwnTranscript(s, t) == None
  {
    assert EndsWith("/p/new.jsonl", TranscriptSuffix) && EndsWith("/p/old.jsonl", TranscriptSuffix);
  }

  /** Both records are stale: nothing is claimed and both sessions get the
      newest transcript. */
  lemma BothStaleKnownLimitation()
    ensures var s := BothStaleSnapshot();
            var active := {"ttys000", "ttys009"};
            && s.Valid()
            && Resolution(s, "ttys000", active) == "/p/new.jsonl"
            && Resolution(s, "ttys009", active) == "/p/new.jsonl"
  {
    var s := BothStaleSnapshot();
    var active := {"ttys000", "ttys009"};
    BothStaleShape();
    NoUsableRecordPicksNewest(s, "ttys000", active, "/p/new.jsonl");
    NoUsableRecordPicksNewest(s, "ttys009", active, "/p/new.jsonl");
  }
}
