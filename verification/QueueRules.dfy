/** What the statements on the queue do, state by state, and which rows its selections take: told by
    the columns alone. */
module QueueRules {
  import opened Basics
  import opened ClipNames
  import opened DownloadQueue

  // ---- A listing ----

  /** What a listing does to a row it has: files on disk end as done, gone clips come back fresh, pending
      and failed ones follow a move on the card, and nothing else is touched. */
  lemma ListedRowLaw(rows: Rows, listing: Listing, present: set<string>, now: int, f: string)
    requires f in rows && f in listing
    ensures var table := After(rows, Relist(listing, present, now));
            f in table &&
            var was, r := rows[f], table[f];
            var dir := if listing[f].filepath == "" then was.sourceDir else listing[f].filepath;
            match was.state
            case Pending => r == if f in present then was.(state := Done) else was.(sourceDir := dir)
            case Failed => r == if f in present then was.(state := Done) else was.(sourceDir := dir)
            case Gone =>
              r == if f in present then was.(state := Done)
                   else was.(state := Pending, attempts := 0, requested := false, sourceDir := dir)
            case Downloading => r == was
            case Done => r == was
            case Skipped => r == was
  {
  }

  /** What a listing does to a row it has lost: pending and failed ones are gone, unless it is empty. */
  lemma LostRowLaw(rows: Rows, listing: Listing, present: set<string>, now: int, f: string)
    requires f in rows && f !in listing
    ensures var table := After(rows, Relist(listing, present, now));
            f in table &&
            if listing != map[] && (rows[f].state.Pending? || rows[f].state.Failed?)
            then table[f] == rows[f].(state := Gone) else table[f] == rows[f]
  {
  }

  /** What a listing adds: a row for every new name, done when its file is on disk. */
  lemma NewRowLaw(rows: Rows, listing: Listing, present: set<string>, now: int, f: string)
    requires f !in rows
    ensures var table := After(rows, Relist(listing, present, now));
            (f in table <==> f in listing) &&
            (f in listing ==>
               var r := table[f];
               && (r.state == if f in present then Done else Pending) && r.attempts == 0 && r.priority == 0
               && r.enqueuedAt == now && r.sourceDir == listing[f].filepath && r.recordedAt == listing[f].recordedAt
               && !r.requested && r.skipReason.NoReason? && !r.released && !r.remoteComplete
               && r.triagedAt.None? && r.triageAttempts == 0 && r.triageLastAttempt.None?)
  {
  }

  // ---- What users and the geofence change ----

  /** Skipping takes what waits, and for the geofence only what was not released from it before. */
  lemma SkipLaw(rows: Rows, names: set<string>, f: string)
    requires f in rows
    ensures var r, s := rows[f], After(rows, Change(names, Skip))[f];
            if f in names && (r.state.Pending? || r.state.Failed?)
            then s == r.(state := Skipped, skipReason := ByUser, requested := false) else s == r
    ensures var r, s := rows[f], After(rows, Change(names, GeofenceSkip))[f];
            if f in names && r.state.Pending? && !r.released
            then s == r.(state := Skipped, skipReason := ByGeofence, requested := false) else s == r
  {
  }

  /** Taking a skip back gives fresh attempts. The user's way releases a clip from the geofence for good;
      the geofence's own way takes only its own skips and releases nothing. */
  lemma UnskipLaw(rows: Rows, names: set<string>, f: string)
    requires f in rows
    ensures var r, s := rows[f], After(rows, Change(names, Unskip))[f];
            if f in names && r.state.Skipped?
            then s == r.(state := Pending, attempts := 0, skipReason := NoReason,
                         released := r.released || r.skipReason.ByGeofence?)
            else s == r
    ensures var r, s := rows[f], After(rows, Change(names, GeofenceUnskip))[f];
            if f in names && r.state.Skipped? && r.skipReason.ByGeofence? && !r.released
            then s == r.(state := Pending, attempts := 0, skipReason := NoReason) else s == r
  {
  }

  /** Retrying, asking and ordering. */
  lemma RetryLaw(rows: Rows, names: set<string>, p: int, f: string)
    requires f in rows
    ensures var r, s := rows[f], After(rows, Change(names, Retry))[f];
            if f in names && r.state.Failed? then s == r.(state := Pending, attempts := 0) else s == r
    ensures var r, s := rows[f], After(rows, Change(names, MarkRequested))[f];
            if f in names && r.state.Pending? then s == r.(requested := true) else s == r
    ensures var r, s := rows[f], After(rows, Change(names, Prioritize(p)))[f];
            if f in names && r.state.Pending? then s == r.(priority := p) else s == r
  {
  }

  /** Deleting a clip here skips it, deleting it on the camera makes it gone. */
  lemma DeleteLaw(rows: Rows, names: set<string>, f: string)
    requires f in rows
    ensures var r, s := rows[f], After(rows, Change(names, DeleteLocal))[f];
            s == if f in names then r.(state := Skipped, skipReason := ByUser, requested := false) else r
    ensures var r, s := rows[f], After(rows, Change(names, RemoveFromCamera))[f];
            s == if f in names then r.(state := Gone) else r
  {
  }

  /** "Download next" leaves every named clip that can be downloaded pending, asked for and on top, with
      its attempts kept only where it was pending already. */
  lemma RequestLaw(rows: Rows, names: set<string>, top: int, f: string)
    requires f in rows
    ensures var r, s := rows[f], After(rows, Change(names, Request(top)))[f];
            if f !in names || r.state.Downloading? || r.state.Done? || r.state.Gone? then s == r
            else
              && s.state.Pending? && s.requested && s.priority == top
              && s.attempts == (if r.state.Pending? then r.attempts else 0)
              && s.released == (r.released || (r.state.Skipped? && r.skipReason.ByGeofence?))
              && s.enqueuedAt == r.enqueuedAt && s.remoteComplete == r.remoteComplete && s.triagedAt == r.triagedAt
              && s.triageAttempts == r.triageAttempts
  {
  }

  // ---- Downloads, crashes, imports, triage ----

  /** A download starts with one more attempt. Done ends it; a failure gives it up when the attempts reach
      the limit and puts it back otherwise; a cancel puts it back with the attempt refunded. */
  lemma DownloadLaw(rows: Rows, f: string, scope: Scope, gate: bool, max: nat, g: string)
    requires g in rows
    ensures var r, s := rows[g], After(rows, Pick(f, scope, gate))[g];
            s == if g == f then r.(state := Downloading, attempts := r.attempts + 1) else r
    ensures var r, s := rows[g], After(rows, End(f, Success))[g]; s == if g == f then r.(state := Done) else r
    ensures var r, s := rows[g], After(rows, End(f, Failure(max)))[g];
            s == if g == f then r.(state := if r.attempts < max then Pending else Failed) else r
    ensures var r, s := rows[g], After(rows, End(f, Cancelled))[g];
            s == if g != f then r else r.(state := Pending, attempts := if r.attempts == 0 then 0 else r.attempts - 1)
  {
  }

  /** A restart puts back what was downloading, and an import makes its clip done; attempts stay. */
  lemma RestartAndImportLaw(rows: Rows, f: string, dir: string, at: Option<int>, now: int, g: string)
    ensures g in rows ==>
              After(rows, Restart)[g] == if rows[g].state.Downloading? then rows[g].(state := Pending) else rows[g]
    ensures var table := After(rows, Import(f, dir, at, now));
            && (g in table <==> g in rows || g == f)
            && (g in rows ==> table[g] == if g == f then rows[g].(state := Done) else rows[g])
            && (f !in rows ==> table[f].state.Done? && table[f].sourceDir == dir && table[f].recordedAt == at)
  {
  }

  /** The record flag confirms exactly the waiting clips of the newest capture, and only when it says that
      recording has stopped. */
  lemma FlagLaw(rows: Rows, recording: Option<int>, f: string)
    requires f in rows
    ensures var r, s := rows[f], After(rows, Flag(recording))[f];
            && s == r.(remoteComplete := s.remoteComplete)
            && (s.remoteComplete <==>
                || r.remoteComplete
                || (recording == Some(0) && (r.state.Pending? || r.state.Failed?)
                    && forall g :: g in rows && !rows[g].state.Gone? ==> !Below(CaptureKey(f), CaptureKey(g))))
  {
    hide CaptureKey;
    if !rows[f].state.Gone? { NotNewest(rows, f); }
  }

  lemma NotNewest(rows: Rows, f: string)
    requires f in rows && !rows[f].state.Gone?
    ensures IsNewest(rows, f)
            <==> forall g :: g in rows && !rows[g].state.Gone? ==> !Below(CaptureKey(f), CaptureKey(g))
  {
    hide CaptureKey, Below;
  }

  /** A reading: points settle it, an unreadable clip counts an attempt, an incomplete one is settled
      without points unless it is the newest, which waits, and no contact with the camera writes nothing. */
  lemma TriageLaw(rows: Rows, f: string, n: nat, now: int)
    requires f in rows
    ensures After(rows, Triage(f, Points(n), now))[f] == rows[f].(triagedAt := Some(now), gpsPoints := n)
    ensures After(rows, Triage(f, Unreadable, now))[f]
            == rows[f].(triageAttempts := rows[f].triageAttempts + 1, triageLastAttempt := Some(now))
    ensures After(rows, Triage(f, Incomplete, now))[f]
            == if IsNewest(rows, f) then rows[f].(triageLastAttempt := Some(now))
               else rows[f].(triagedAt := Some(now), gpsPoints := 0)
    ensures After(rows, Triage(f, Offline, now))[f] == rows[f]
    ensures forall g, how :: g in rows && g != f ==> After(rows, Triage(f, how, now))[g] == rows[g]
  {
    hide IsNewest;
  }

  // ---- Which rows are taken ----

  /** The rows that may be downloaded: waiting, in scope or asked for, not gated by an untriaged GPS
      sibling, and not the newest capture unless it is confirmed. */
  lemma EligibleIff(rows: Rows, f: string, scope: Scope, gate: bool, guard: bool)
    ensures Eligible(rows, f, scope, gate, guard)
            <==> && f in rows && rows[f].state.Pending?
                 && (rows[f].requested || match scope
                                          case Everything => true
                                          case Nothing => false
                                          case RoOnly => IsRO(rows[f].sourceDir)
                                          case NoParking => IsRO(rows[f].sourceDir) || EventByte(f) != 'P')
                 && (gate ==> forall g :: g in rows && InRange(g, Prefix16(f)) && IsGpsLens(g) && rows[g].state.Pending?
                                ==> rows[g].triagedAt.Some? || rows[g].triageAttempts >= 5)
                 && (guard ==> rows[f].remoteComplete
                               || (exists g :: g in rows && !rows[g].state.Gone? && Below(CaptureKey(f), CaptureKey(g)))
                               || forall g :: g in rows && !rows[g].state.Gone? ==> CaptureKey(g) != CaptureKey(f))
  {
    hide CaptureKey, InRange, Below, IsRO, EventByte, IsGpsLens;
  }

  /** The pick is an eligible row of the highest priority and, among those, of the earliest listing. */
  lemma NextIff(rows: Rows, f: string, scope: Scope, gate: bool, guard: bool)
    ensures IsNext(rows, f, scope, gate, guard)
            <==> && Eligible(rows, f, scope, gate, guard)
                 && forall g :: g in rows && Eligible(rows, g, scope, gate, guard) ==>
                      && rows[g].priority <= rows[f].priority
                      && (rows[g].priority == rows[f].priority ==> rows[f].enqueuedAt <= rows[g].enqueuedAt)
  {
    hide Eligible;
  }

  /** The clips triage may read: pending GPS clips it has not answered five times, recorded two minutes
      ago, or 31 for parking clips, last tried long enough ago, and not the unconfirmed newest. */
  lemma TargetIff(rows: Rows, f: string, now: int)
    ensures IsTarget(rows, f, now)
            <==> && f in rows && rows[f].state.Pending? && IsGpsLens(f)
                 && rows[f].triagedAt.None? && rows[f].triageAttempts < 5
                 && (IsNewest(rows, f) ==> rows[f].remoteComplete)
                 && (rows[f].recordedAt.Some? ==>
                       now >= rows[f].recordedAt.value + if IsParkingClip(f) then 1860 else 120)
                 && (rows[f].triageLastAttempt.Some? ==>
                       now >= rows[f].triageLastAttempt.value
                              + match rows[f].triageAttempts case 1 => 10 case 2 => 30 case 3 => 120 case _ => 600)
  {
    hide IsNewest, IsParkingClip, IsGpsLens;
  }

  /** A parking clip is one whose name the registry knows with a P before its camera letter. */
  lemma ParkingClips(n: Name)
    requires n.WellFormed()
    ensures IsParkingClip(n.Render())
            <==> |n.letters| == 2 && Upper(n.letters[0]) == 'P' && Upper(n.letters[1]) in {'F', 'R', 'T', 'I'}
  {
    hide SuffixLetters;
    KnownSuffixes(n);
  }

  lemma ReadOnlyAt(dir: string, i: nat)
    requires i + 3 <= |dir| && dir[i] == '/' && (dir[i + 1] == 'R' || dir[i + 1] == 'r')
    requires (dir[i + 2] == 'O' || dir[i + 2] == 'o') && (i + 3 == |dir| || dir[i + 3] == '/')
    ensures IsRO(dir)
  {
  }

  /** A directory is read-only whatever stands before and after the component, in any case. */
  lemma ReadOnlyDirs(a: string, b: string, x: char, y: char)
    requires (x == 'R' || x == 'r') && (y == 'O' || y == 'o')
    ensures IsRO(a + ['/', x, y, '/'] + b) && IsRO(a + ['/', x, y])
  {
    hide IsRO;
    var inner, last := a + ['/', x, y, '/'] + b, a + ['/', x, y];
    assert inner[|a|..|a| + 4] == ['/', x, y, '/'];
    assert last[|a|..] == ['/', x, y];
    Letters(inner, |a|, ['/', x, y, '/']);
    Letters(last, |a|, ['/', x, y]);
    ReadOnlyAt(inner, |a|);
    ReadOnlyAt(last, |a|);
  }

  /** And no other directory is. */
  lemma OnlyReadOnlyDirs(dir: string) returns (a: string, x: char, y: char, b: string)
    requires IsRO(dir)
    ensures (x == 'R' || x == 'r') && (y == 'O' || y == 'o')
    ensures dir == a + ['/', x, y, '/'] + b || dir == a + ['/', x, y]
  {
    var i :| 0 <= i && i + 3 <= |dir| && dir[i] == '/' && Upper(dir[i + 1]) == 'R' && Upper(dir[i + 2]) == 'O'
             && (i + 3 == |dir| || dir[i + 3] == '/');
    a, x, y, b := SplitAround(dir, i);
  }

  lemma SplitAround(dir: string, i: nat) returns (a: string, x: char, y: char, b: string)
    requires i + 3 <= |dir| && dir[i] == '/' && Upper(dir[i + 1]) == 'R' && Upper(dir[i + 2]) == 'O'
    requires i + 3 == |dir| || dir[i + 3] == '/'
    ensures (x == 'R' || x == 'r') && (y == 'O' || y == 'o')
    ensures dir == a + ['/', x, y, '/'] + b || dir == a + ['/', x, y]
  {
    hide Upper;
    a, x, y := dir[..i], dir[i + 1], dir[i + 2];
    UpperOf(x);
    UpperOf(y);
    b := if i + 3 == |dir| then "" else dir[i + 4..];
    SplitAt(dir, i);
  }

  lemma UpperOf(c: char)
    ensures Upper(c) == 'R' ==> c == 'R' || c == 'r'
    ensures Upper(c) == 'O' ==> c == 'O' || c == 'o'
  {
  }

  lemma SplitAt(s: string, i: nat)
    ensures i + 3 == |s| ==> s == s[..i] + [s[i], s[i + 1], s[i + 2]]
    ensures i + 3 < |s| ==> s == s[..i] + [s[i], s[i + 1], s[i + 2], s[i + 3]] + s[i + 4..]
  {
  }

  lemma Letters(s: string, i: nat, part: string)
    requires i + |part| <= |s| && s[i..i + |part|] == part
    ensures forall k :: 0 <= k < |part| ==> s[i + k] == part[k]
  {
    forall k | 0 <= k < |part| ensures s[i + k] == part[k] {
      assert s[i..i + |part|][k] == part[k];
    }
  }

  /** The directories imports are filed under are told apart by it. */
  lemma ImportDirs()
    ensures IsRO("/import/RO/") && !IsRO("/import/")
  {
    hide IsRO;
    ReadOnlyAt("/import/RO/", 7);
    NoComponent("/import/");
  }

  /** No component of two letters can follow where the only slashes are the first and the last character. */
  lemma NoComponent(dir: string)
    requires |dir| >= 5 && dir[1] != 'R' && dir[1] != 'r'
    requires forall i :: 1 <= i < |dir| - 1 ==> dir[i] != '/'
    ensures !IsRO(dir)
  {
  }
}
