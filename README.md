# claude-swiftbar-status: transcript claims and tab-to-slot mapping, in Dafny

This project models the two resolution algorithms of claude-swiftbar-status.
The system shows one menu-bar icon per Claude session running in an iTerm tab.

- **Transcript claim resolution** (`resolve` in `src/resolve_transcript.py`).
  Given a short TTY name, it finds the `*.jsonl` transcript that belongs to that
  TTY's session. First it tries the TTY's own state record
  `session-<tty>.json`. If that record is unusable, it falls back to the most
  recently modified transcript that no other active session claims through a
  usable record of its own.
- **Tab-to-slot mapping** (the cache-builder script reproduced in
  `test/test_slot_mapping.py`). It keeps the iTerm TTYs, in tab order, that run
  a Claude process. It exports their short names as a comma-joined list. Icon
  slot N gets the TTY at 1-based position `count - N + 1`, because the menu bar
  draws icons right to left. The per-slot reader hides its icon when the cache
  is missing or its slot number exceeds `SLOT_COUNT`. The plugin takes its slot
  number from its own file name, `ClaudeBar-<digits>.…`, and uses 1 when the
  name does not match.

Both algorithms are stated over snapshots of their inputs:

- The filesystem is a `TranscriptResolver.Snapshot` with four parts:
  - what `json.load(...).get("transcript_path", "")` gave for each file of the
    state directory, or `None` when reading or parsing failed;
  - the set of paths for which `os.path.isfile` holds;
  - the list the transcript glob returned;
  - the modification times of the listed transcripts.
- The slot mapper takes the tab-ordered TTY list and the `PID_BY_TTY` map.

Files:

| file | module | what |
|---|---|---|
| `wrappers.dfy` | `Wrappers` | `Option` |
| `path_order.dfy` | `PathOrder` | lexicographic order on paths, used for mtime ties |
| `recency.dfy` | `Recency` | the candidate order: newest first, ties by path; an insertion sort proved sorted and a permutation |
| `transcript_resolver.dfy` | `TranscriptResolver` | record names, usable records, the claimed set, the fallback pick, `Resolve`, and their properties |
| `slot_mapping.dfy` | `SlotMapping` | live-tab filter, `ACTIVE_CLAUDE_TTYS`, slot entries, the cache, the reader, and their properties |
| `slot_filename.dfy` | `SlotFilename` | the slot number in a plugin file name |

Each loop of the source is a method whose `ensures` ties its result to a
specification function. The properties are lemmas about those functions:
- `CollectClaims` and `PickUnclaimed` are the two loops of `resolve`.
- `FilterLive`, `JoinActive` and `EmitSlots` are the three loops of the cache
  builder.

Tie-break: Python's `sorted(..., reverse=True)` keeps transcripts with equal
mtimes in glob order, and glob order is unspecified. This model breaks such
ties by path (lexicographically smallest first). That makes the choice
deterministic. `ListingOrderIrrelevant` proves that the result then depends
only on which transcripts are listed, not on the order they are listed in.

`ACTIVE_CLAUDE_TTYS` is built with zsh's `${ACC:+$ACC,}`. This puts a comma
only after a non-empty accumulator. The accumulator is empty only until the
first non-empty short name has been added. So an empty short name before the
first non-empty one vanishes together with its comma: `/dev/`, `/dev/ttys001`
gives `ttys001`. An empty name later in the list keeps its commas: `/dev/a`,
`/dev/`, `/dev/b` gives `a,,b`. `ActiveList` models this exactly.
`ActiveListIsJoin` proves that it equals the plain comma-join whenever the
first short name is non-empty, which real TTY device names always are.

## Model

| member | source | states |
|---|---|---|
| `TranscriptResolver.RecordName` | src/resolve_transcript.py:19 | the record name for `t` is `session-` + `t` + `.json`: it starts with `session-`, ends with `.json`, and `t` is what lies between |
| `TranscriptResolver.IsRecordName` | src/resolve_transcript.py:31 | a state-directory entry matched by the pattern `session-*.json`: at least as long as prefix and suffix together, starting with `session-` and ending with `.json` |
| `TranscriptResolver.TtyOf` | src/resolve_transcript.py:32 | the TTY cut out of a matching record name rebuilds that name as `session-<tty>.json` |
| `TranscriptResolver.TtyOfRecordName` | src/resolve_transcript.py:19-32 | `session-<t>.json` matches `session-*.json`, and stripping `session-` and `.json` gives back exactly `t` |
| `TranscriptResolver.RecordNameInjective` | src/resolve_transcript.py:19 | two different TTYs never share a state record |
| `TranscriptResolver.Usable` | src/resolve_transcript.py:20-25 | a record yields a transcript only if its `transcript_path` is non-empty and names an existing file |
| `TranscriptResolver.OwnTranscript` | src/resolve_transcript.py:18-27 | the fast path: a transcript comes from `tty`'s own record `session-<tty>.json`, is non-empty and names an existing file |
| `TranscriptResolver.CollectClaims` | src/resolve_transcript.py:30-41 | the loop over the listed records builds exactly the claimed set |
| `TranscriptResolver.Claimed` | src/resolve_transcript.py:29-41 | the set the claims loop builds: the transcripts of usable records of other active TTYs; every claimed path is non-empty and exists |
| `TranscriptResolver.ClaimedIff` | src/resolve_transcript.py:31-39 | a transcript is claimed iff some other TTY that is active has a usable record naming it (both directions) |
| `TranscriptResolver.FirstUnclaimed` | src/resolve_transcript.py:44-50 | the returned position is the first one outside the claimed set: everything before it is claimed, and it is `|order|` only when all are |
| `TranscriptResolver.PickUnclaimed` | src/resolve_transcript.py:44-52 | the scan returns the first unclaimed candidate in recency order, or "" when every candidate is claimed |
| `TranscriptResolver.Fallback` | src/resolve_transcript.py:43-52 | the fallback pick: the first unclaimed transcript in recency order, or ""; a non-empty pick is listed and unclaimed |
| `TranscriptResolver.Resolution` | src/resolve_transcript.py:10-52 | what `resolve` returns: the own record's transcript (an existing file) when usable, otherwise the fallback, which is "" or a listed unclaimed transcript |
| `TranscriptResolver.Resolve` | src/resolve_transcript.py:10-52 | the resolver equals the specification `Resolution`; a usable own record is returned unchanged, whatever the other records and the active set |
| `Recency.ByRecency` | src/resolve_transcript.py:44-48 | the candidate order is a permutation of the listing in which no entry comes after a newer one (newest first, ties by path) |
| `Recency.ByRecencyMembers` | src/resolve_transcript.py:44-48 | the sorted candidates are exactly the listed transcripts |
| `Recency.NewerTotal` | src/resolve_transcript.py:44-48 | any two different transcripts are ordered one way or the other, so the tie-break leaves no choice open |
| `Recency.NewerComesFirst` | src/resolve_transcript.py:44-48 | in the sorted candidates a newer transcript always comes before an older one |
| `TranscriptResolver.FallbackIsMostRecentUnclaimed` | src/resolve_transcript.py:43-50 | on the fallback path a non-empty result is a listed, unclaimed transcript, and every listed transcript ranked before it is claimed |
| `TranscriptResolver.FallbackSkipsOnlyClaimedNewer` | src/resolve_transcript.py:44-50 | on the fallback path every listed transcript with a strictly later mtime than the result is claimed |
| `TranscriptResolver.EmptyExactlyWhenAllClaimed` | src/resolve_transcript.py:43-52 | the result is "" iff the own record is unusable and every listed transcript is claimed, including when none is listed |
| `TranscriptResolver.FallbackNeverSteals` | src/resolve_transcript.py:29-50 | a TTY without a usable record never gets the transcript named by another active TTY's usable record |
| `TranscriptResolver.UnusableRecordIsAbsent` | src/resolve_transcript.py:20-27 | a missing, corrupt or stale record changes nothing: deleting it leaves the result the same |
| `TranscriptResolver.DeadSessionReleased` | src/resolve_transcript.py:33-34 | the record of an inactive TTY other than the querying one never blocks a transcript: deleting it leaves the result the same |
| `TranscriptResolver.SimultaneousFallbacksCollide` | test/test_resolve_transcript.py:93-102 | the kept limitation: two TTYs that both lack usable records resolve to the same transcript |
| `TranscriptResolver.ListingOrderIrrelevant` | src/resolve_transcript.py:44-48 | two listings of the same transcripts in different orders resolve alike |
| `TranscriptResolver.NewestUnclaimedIsPicked` | src/resolve_transcript.py:43-50 | an unclaimed listed transcript newer than every other unclaimed one is the one picked |
| `TranscriptResolver.SoleUnclaimedIsPicked` | src/resolve_transcript.py:43-50 | when exactly one listed transcript is unclaimed, the fallback picks it whatever the mtimes |
| `TranscriptResolver.NoUsableRecordPicksNewest` | src/resolve_transcript.py:29-50 | when no TTY has a usable record nothing is claimed, and every TTY gets the newest listed transcript |
| `TranscriptResolver.OneStaleDoesNotSteal` | test/test_resolve_transcript.py:80-91 | stale record for A, valid record for B on the newer transcript: B gets its own, A gets the older one |
| `TranscriptResolver.BothStaleKnownLimitation` | test/test_resolve_transcript.py:93-102 | both records stale: both TTYs get the newest transcript |
| `SlotMapping.ShortName` | test/test_slot_mapping.py:48 | `${t#/dev/}`: the TTY with a leading `/dev/` removed, unchanged when there is none |
| `SlotMapping.ShortNameIsSuffix` | test/test_slot_mapping.py:59 | the short name is a suffix of the TTY, and `/dev/` followed by it rebuilds a TTY that starts with `/dev/` |
| `SlotMapping.HasPid` | test/test_slot_mapping.py:41 | `[[ -n "${PID_BY_TTY[$t]}" ]]`: the TTY has a PID entry and it is non-empty |
| `SlotMapping.PidOf` | test/test_slot_mapping.py:58 | `${PID_BY_TTY[$t]}`: the PID read for a TTY is non-empty exactly when the TTY has a PID, and is then its entry; an unset entry reads as "" |
| `SlotMapping.ShortNameOfDevice` | test/test_slot_mapping.py:59 | `${t#/dev/}` on `/dev/<n>` gives back `<n>` |
| `SlotMapping.LiveSessions` | test/test_slot_mapping.py:39-42 | the live list holds exactly the tabs whose TTY has a non-empty PID, and is no longer than the tab list |
| `SlotMapping.FilterLive` | test/test_slot_mapping.py:39-42 | the filter loop builds the live list |
| `SlotMapping.LiveIsOrderedSubsequence` | test/test_slot_mapping.py:39-42 | the live list is the tab list at exactly the positions whose TTY has a PID, in increasing position order |
| `SlotMapping.LivePositionsSelect` | test/test_slot_mapping.py:39-42 | the k-th live TTY is the tab at the k-th kept position |
| `SlotMapping.MapSlot` | test/test_slot_mapping.py:54-57 | slot N shows the live TTY at 1-based index count - N + 1; it shows a TTY iff 1 <= N <= count, and what it shows is a live TTY |
| `SlotMapping.SlotOfPosition` | test/test_slot_mapping.py:54-57 | the live TTY at 0-based position p is shown by slot count - p and by no other slot |
| `SlotMapping.IconOrderFollowsTabOrder` | test/test_slot_mapping.py:54-57 | a higher slot (further left in the menu bar) shows a tab further left |
| `SlotMapping.MappedTtysAreLive` | test/test_slot_mapping.py:135-141 | slots 1..count together show exactly the live TTYs |
| `SlotMapping.ReorderKeepsMappedSet` | test/test_slot_mapping.py:180-196 | reordering the tabs keeps SLOT_COUNT and the set of TTYs shown; only the assignment moves |
| `SlotMapping.AppendActive` | test/test_slot_mapping.py:48 | one step of `${ACC:+$ACC,}<short>`: a comma goes in only after a non-empty accumulator |
| `SlotMapping.ActiveList` | test/test_slot_mapping.py:46-49 | `ACTIVE_CLAUDE_TTYS` as the loop accumulates it over the live list, one `AppendActive` step per live TTY |
| `SlotMapping.ActiveListEmpty` | test/test_slot_mapping.py:46-49 | `ACTIVE_CLAUDE_TTYS` is empty exactly when every live TTY's short name is empty |
| `SlotMapping.JoinActive` | test/test_slot_mapping.py:46-49 | the accumulation loop builds `ACTIVE_CLAUDE_TTYS` |
| `SlotMapping.ActiveListIsJoin` | test/test_slot_mapping.py:46-49 | when the first short name is non-empty, `ACTIVE_CLAUDE_TTYS` is the short names in live order joined by single commas |
| `SlotMapping.Split` | test/test_slot_mapping.py:149 | `str.split(",")`: at least one field, and no field holds a comma |
| `SlotMapping.JoinSplit` | test/test_slot_mapping.py:149 | joining the fields of a split with commas gives back the string |
| `SlotMapping.SplitJoin` | test/test_slot_mapping.py:143-150 | splitting a comma-join of comma-free names on "," gives the names back |
| `SlotMapping.ActiveListSplitsIntoShortNames` | test/test_slot_mapping.py:143-150 | `ACTIVE_CLAUDE_TTYS.split(",")` is the list of live short names, when they are comma-free and the first is non-empty |
| `SlotMapping.EmitSlots` | test/test_slot_mapping.py:54-66 | the slot loop emits one entry per slot 1..count; entry N holds `mapSlot(N)`, that TTY's PID and its short name |
| `SlotMapping.BuildCache` | test/test_slot_mapping.py:39-66 | SLOT_COUNT is the number of live tabs, and no entry has a slot outside 1..SLOT_COUNT |
| `SlotMapping.FindSlot` | test/test_slot_mapping.py:215-219 | a found entry is one for the requested slot; none is found only when no entry has that slot |
| `SlotMapping.ReadSlot` | test/test_slot_mapping.py:212-219 | the reader: it hides exactly when the cache is missing or SLOT_COUNT < SLOT_NUM; otherwise it shows the `SLOT_<n>_*` values, unset ones as "", with the cache's active list |
| `SlotMapping.FindSlotInEntries` | test/test_slot_mapping.py:54-66 | in the emitted entries slot N is found, at position N - 1, exactly when 1 <= N <= count |
| `SlotMapping.ReaderOverEntries` | test/test_slot_mapping.py:209-219 | over any cache with the emitted entries, the reader hides iff N > SLOT_COUNT, shows `mapSlot(N)` with its PID and short name for 1 <= N <= count, and shows empty fields for slot 0 |
| `SlotMapping.ReaderShowsMappedSlot` | test/test_slot_mapping.py:209-219 | a reader of the built cache hides iff N > SLOT_COUNT; for 1 <= N <= count it shows `mapSlot(N)` with its PID, short name and the active list |
| `SlotMapping.TwoSessionsScenario` | test/test_slot_mapping.py:86-96 | tabs ttys009, ttys000, ttys002 with Claude on the first two: slot 1 shows ttys000, slot 2 ttys009, slot 3 hides |
| `SlotFilename.SlotNumber` | test/test_slot_mapping.py:319-323 | SLOT_NUM from the file name: the digits after `ClaudeBar-` when a `.` follows them, else 1; a slot other than 1 comes only from a name starting `ClaudeBar-<digit>` |
| `SlotFilename.LeadingDigits` | test/test_slot_mapping.py:321 | the digit run taken is a prefix, all digits, and is followed by a non-digit or the end |
| `SlotFilename.SlotNumberOfMatch` | test/test_slot_mapping.py:319-323 | a name `ClaudeBar-<digits>.<rest>` gives the value of those digits |
| `SlotFilename.NonDefaultSlotMatches` | test/test_slot_mapping.py:319-323 | a name giving a slot other than 1 matches `^ClaudeBar-([0-9]+)\.`, so any other name gives 1 |
| `SlotFilename.SlotNumberRoundTrip` | test/test_slot_mapping.py:319-323 | naming a plugin after slot n and reading its slot back gives n |
| `SlotFilename.PluginFileNames` | test/test_slot_mapping.py:329-340 | `ClaudeBar-1.2s.sh`, `-5.2s.sh`, `-3.5s.sh` give 1, 5, 3; `ClaudeBar.sh` gives the default 1 |

## Left out

- Filesystem access (`os.path.isfile`, `glob.glob`, `os.path.getmtime`, `open`, `json.load`). It is replaced by the `Snapshot`. JSON parsing is a library call, so only its outcome is modelled: `Option<string>`, with `None` for any failure.
- A record whose `transcript_path` is not a string (a number, a list) is treated like an unparseable record. Python would pass such a value to `os.path.isfile`, which it is not meant to receive.
- A transcript that disappears between the glob and `os.path.getmtime` makes the Python code raise. `Resolve` instead requires every listed transcript to have an mtime (`Snapshot.Valid`).
- `Resolve`: ties between equal mtimes are broken by path instead of by glob order. Glob order is unspecified, so the Python choice among tied transcripts is not reproducible.
- `RecordName`: a TTY name containing `/` makes the Python fast path look in a subdirectory. The model does not capture this; state records are keyed by base name only.
- The command-line wrapper of `resolve_transcript.py` (argument parsing, the comma-split of the active set, `print`). This is I/O plumbing.
- The zsh process invocation and the `partition("=")` parsing of its output in the tests. This is test-harness I/O.
- `SLOT_<n>_CWD` and `SLOT_<n>_PROJECT_HASH`. The script fills them with placeholders, so the slot entries omit them.
- The cache is a value, not a `key=value` file. The model does not capture sourcing it, a half-written file, or timing between the writer and the readers, which run as separate processes.
- `SlotFilename.SlotNumberOfMatch`: leading zeros (`ClaudeBar-07.…`) give the digits' value (7). The real reader would then look up `SLOT_07_*`, which the writer never emits; that textual key mismatch is not modelled.
- Slot number 0 (`ClaudeBar-0.…`) is not hidden by the reader: `SLOT_COUNT < 0` is false, so it reads the unset `SLOT_0_*` as empty. `ReadSlot` models this as shown with empty fields.
- `doc/generate_demo.py` is not part of this model. It is image drawing and GIF output.
