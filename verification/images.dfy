/** src/images.js: download the artwork images that are not downloaded yet,
    one at a time with a pause after each, and record each file's name in the
    table. The HTTP fetch with its file write, the UPDATE's outcome and the
    clock are parameters. */
module Images {
  import opened Base
  import opened Decimal
  import opened Casing
  import opened ArtStore

  // ---------------------------------------------------------------------------
  // createFileName

  /** `${art_id}-${snakeCase(title)}-${snakeCase(artist)}-${snakeCase(catalog)}.jpg`,
      written as the id, a `-` and the rest. */
  function CreateFileName(p: Pending): string
  {
    NatToString(p.artId) + "-" + Tail(p)
  }

  /** `${snakeCase(title)}-${snakeCase(artist)}-${snakeCase(catalog)}.jpg`. */
  function Tail(p: Pending): string
  {
    Slugs(p) + ".jpg"
  }

  /** `${snakeCase(title)}-${snakeCase(artist)}-${snakeCase(catalog)}`. */
  function Slugs(p: Pending): string
  {
    SnakeCase(p.title) + "-" + SnakeCase(p.artist) + "-" + SnakeCase(p.catalog)
  }

  /** The characters a file name is made of. */
  predicate FileNameChar(c: char)
  {
    IsLower(c) || IsDigit(c) || c == '_' || c == '-' || c == '.'
  }

  predicate AllFileNameChars(s: string)
  {
    forall k | 0 <= k < |s| :: FileNameChar(s[k])
  }

  lemma {:induction false} FileNameCharsConcat(a: string, b: string)
    requires AllFileNameChars(a) && AllFileNameChars(b)
    ensures AllFileNameChars(a + b)
  {
    forall k | 0 <= k < |a + b|
      ensures FileNameChar((a + b)[k])
    {
      if k < |a| {
        assert (a + b)[k] == a[k];
      } else {
        assert (a + b)[k] == b[k - |a|];
      }
    }
  }

  lemma {:induction false} SnakeCaseIsFileName(s: string)
    ensures AllFileNameChars(SnakeCase(s))
  {
    SnakeCaseAlphabet(s);
  }

  /** The name is a `.jpg` name. */
  lemma {:induction false} FileNameExtension(p: Pending)
    ensures EndsWith(CreateFileName(p), ".jpg")
  {
    EndsWithAppend(NatToString(p.artId) + "-", Tail(p), Slugs(p), ".jpg");
  }

  /** The name is made of lower-case letters, digits, `_`, `-` and `.`; in
      particular it holds no `/`, so joined to the art directory it names a
      file directly inside it. */
  lemma {:induction false} FileNameSafe(p: Pending)
    ensures AllFileNameChars(CreateFileName(p)) && '/' !in CreateFileName(p)
  {
    FileNameChars(p);
    NoSlash(CreateFileName(p));
  }

  lemma {:induction false} FileNameChars(p: Pending)
    ensures AllFileNameChars(CreateFileName(p))
  {
    var id, sep, jpg := NatToString(p.artId), "-", ".jpg";
    var t, a, c := SnakeCase(p.title), SnakeCase(p.artist), SnakeCase(p.catalog);
    assert AllFileNameChars(id) by {
      forall k | 0 <= k < |id|
        ensures FileNameChar(id[k])
      {
        assert IsDigit(id[k]);
      }
    }
    LiteralChars(sep, jpg);
    SnakeCaseIsFileName(p.title);
    SnakeCaseIsFileName(p.artist);
    SnakeCaseIsFileName(p.catalog);
    FileNameCharsConcat(t, sep);
    FileNameCharsConcat(t + sep, a);
    FileNameCharsConcat(t + sep + a, sep);
    FileNameCharsConcat(t + sep + a + sep, c);
    FileNameCharsConcat(Slugs(p), jpg);
    FileNameCharsConcat(id, sep);
    FileNameCharsConcat(id + sep, Tail(p));
  }

  lemma {:induction false} LiteralChars(sep: string, ext: string)
    requires sep == "-" && ext == ".jpg"
    ensures AllFileNameChars(sep) && AllFileNameChars(ext)
  {
    assert |ext| == 4 && ext[0] == '.' && ext[1] == 'j' && ext[2] == 'p' && ext[3] == 'g';
    assert FileNameChar(ext[0]) && FileNameChar(ext[1]) && FileNameChar(ext[2]) && FileNameChar(ext[3]);
  }

  lemma {:induction false} NoSlash(s: string)
    requires AllFileNameChars(s)
    ensures '/' !in s
  {
    forall k | 0 <= k < |s|
      ensures s[k] != '/'
    {
      assert FileNameChar(s[k]);
    }
  }

  /** `parseInt` of the file name gives the record's id back. */
  lemma {:induction false} FileNameId(p: Pending)
    ensures ParseInt(CreateFileName(p)) == Some(p.artId)
  {
    var rest := ['-'] + Tail(p);
    assert rest[0] == '-';
    AppendAssoc(NatToString(p.artId), ['-'], Tail(p));
    ParseIntOfNumeralThen(p.artId, rest);
  }

  /** Records with different ids get different file names, so no download
      overwrites another record's image. */
  lemma {:induction false} FileNameDistinct(p: Pending, q: Pending)
    requires p.artId != q.artId
    ensures CreateFileName(p) != CreateFileName(q)
  {
    if CreateFileName(p) == CreateFileName(q) {
      var x, y := NatToString(p.artId), NatToString(q.artId);
      assert x + ['-'] + Tail(p) == y + ['-'] + Tail(q);
      NumeralAvoids(p.artId, '-');
      NumeralAvoids(q.artId, '-');
      FirstSeparatorDecides(x, Tail(p), y, Tail(q), '-');
      NatToStringInjective(p.artId, q.artId);
    }
  }

  // ---------------------------------------------------------------------------
  // download

  /** What `download` does for the outside world: start a download (which
      succeeds or fails), write the file name to the table (which succeeds or
      fails), wait. */
  datatype Event =
    | Fetch(fileName: string, ok: bool)
    | Save(artId: nat, fileName: string, ok: bool)
    | Pause(ms: nat)

  /** The events for one record saved under `fileName`: the download, the
      UPDATE only after a finished download, and the pause whatever happened. */
  function RecordEvents(p: Pending, fileName: string, fetch: Pending -> bool, save: Pending -> bool, delayMs: nat): (e: seq<Event>)
    ensures 2 <= |e| <= 3 && e[0] == Fetch(fileName, fetch(p)) && e[|e| - 1] == Pause(delayMs)
    ensures |e| == 3 <==> fetch(p)
    ensures |e| == 3 ==> e[1] == Save(p.artId, fileName, save(p))
  {
    if fetch(p) then [Fetch(fileName, true), Save(p.artId, fileName, save(p)), Pause(delayMs)]
    else [Fetch(fileName, false), Pause(delayMs)]
  }

  /** The events for a list of records, in order, each saved under the name
      `name` gives it. */
  function Trace(records: seq<Pending>, name: Pending -> string, fetch: Pending -> bool, save: Pending -> bool, delayMs: nat): seq<Event>
    decreases |records|
  {
    if |records| == 0 then []
    else
      Trace(records[..|records| - 1], name, fetch, save, delayMs)
      + RecordEvents(records[|records| - 1], name(records[|records| - 1]), fetch, save, delayMs)
  }

  function PauseCount(e: seq<Event>): nat
    decreases |e|
  {
    if |e| == 0 then 0 else PauseCount(e[..|e| - 1]) + (if e[|e| - 1].Pause? then 1 else 0)
  }

  lemma {:induction false} PauseCountAppend(a: seq<Event>, b: seq<Event>)
    ensures PauseCount(a + b) == PauseCount(a) + PauseCount(b)
    decreases |b|
  {
    if |b| > 0 {
      var b' := b[..|b| - 1];
      assert (a + b)[..|a + b| - 1] == a + b';
      PauseCountAppend(a, b');
    } else {
      assert a + b == a;
    }
  }

  lemma {:induction false} RecordPauses(p: Pending, fileName: string, fetch: Pending -> bool, save: Pending -> bool, delayMs: nat)
    ensures PauseCount(RecordEvents(p, fileName, fetch, save, delayMs)) == 1
  {
    var e := RecordEvents(p, fileName, fetch, save, delayMs);
    var front := e[..|e| - 1];
    assert forall k | 0 <= k < |front| :: !front[k].Pause?;
    NoPauses(front);
    assert e == front + [e[|e| - 1]];
  }

  lemma {:induction false} NoPauses(e: seq<Event>)
    requires forall k | 0 <= k < |e| :: !e[k].Pause?
    ensures PauseCount(e) == 0
    decreases |e|
  {
    if |e| > 0 {
      NoPauses(e[..|e| - 1]);
    }
  }

  /** The download pacing: one pause per record, every download but the first
      comes right after a pause, and the run ends with a pause. */
  lemma {:induction false} TracePacing(records: seq<Pending>, name: Pending -> string, fetch: Pending -> bool, save: Pending -> bool, delayMs: nat)
    ensures var e := Trace(records, name, fetch, save, delayMs);
      && PauseCount(e) == |records|
      && (|records| > 0 ==> e[0].Fetch? && e[|e| - 1] == Pause(delayMs))
      && (forall k | 0 < k < |e| && e[k].Fetch? :: e[k - 1] == Pause(delayMs))
    decreases |records|
  {
    var e := Trace(records, name, fetch, save, delayMs);
    if |records| > 0 {
      var p := records[|records| - 1];
      var front := Trace(records[..|records| - 1], name, fetch, save, delayMs);
      var last := RecordEvents(p, name(p), fetch, save, delayMs);
      TracePacing(records[..|records| - 1], name, fetch, save, delayMs);
      PauseCountAppend(front, last);
      RecordPauses(p, name(p), fetch, save, delayMs);
      assert e == front + last;
      forall k | 0 < k < |e| && e[k].Fetch?
        ensures e[k - 1] == Pause(delayMs)
      {
        FetchFollowsPause(front, last, k, delayMs);
      }
    }
  }

  lemma {:induction false} FetchFollowsPause(front: seq<Event>, last: seq<Event>, k: nat, delayMs: nat)
    requires 0 < k < |front + last| && (front + last)[k].Fetch?
    requires forall j | 0 < j < |front| && front[j].Fetch? :: front[j - 1] == Pause(delayMs)
    requires |front| > 0 ==> front[|front| - 1] == Pause(delayMs)
    requires |last| > 0 && last[0].Fetch? && forall j | 0 < j < |last| :: !last[j].Fetch?
    ensures (front + last)[k - 1] == Pause(delayMs)
  {
  }

  /** The ids whose record, among the first `n`, was both downloaded and saved. */
  function SavedIds(records: seq<Pending>, n: nat, fetch: Pending -> bool, save: Pending -> bool): set<nat>
    requires n <= |records|
  {
    set k | 0 <= k < n && fetch(records[k]) && save(records[k]) :: records[k].artId
  }

  /** No selected record shares its id with a row that already has a file. */
  lemma {:induction false} SelectionIsPending(t: Table, max: int, picked: seq<Pending>)
    requires Valid(t) && IsMissingSelection(t, max, picked)
    ensures forall r, k | 0 <= r < |t| && 0 <= k < |picked| && t[r].fileName.Some? :: t[r].artId != picked[k].artId
  {
    forall r, k | 0 <= r < |t| && 0 <= k < |picked| && t[r].fileName.Some?
      ensures t[r].artId != picked[k].artId
    {
      MissingSelectionRows(t, max, picked, k);
      var i :| 0 <= i < |t| && t[i].fileName.None? && picked[k] == Project(t[i]);
      assert i != r;
    }
  }

  /** The table after the first `n` records: every saved record's row holds
      its file name and the clock reading of its turn, and every other row
      is as it was. */
  predicate Applied(t: Table, u: Table, records: seq<Pending>, n: nat, name: Pending -> string,
                    fetch: Pending -> bool, save: Pending -> bool, now: nat -> nat)
    requires n <= |records|
  {
    && |u| == |t|
    && (forall r | 0 <= r < |t| :: SameExceptDownload(u[r], t[r]))
    && (forall r, k | 0 <= r < |t| && 0 <= k < n && t[r].artId == records[k].artId && fetch(records[k]) && save(records[k]) ::
          u[r].fileName == Some(name(records[k])) && u[r].modified == now(k))
    && (forall r | 0 <= r < |t| && t[r].artId !in SavedIds(records, n, fetch, save) :: u[r] == t[r])
  }

  /** One turn of the loop on the table: the UPDATE runs only after a
      finished download, and changes the table only when it succeeds. */
  function Turn(u: Table, p: Pending, k: nat, name: Pending -> string,
                fetch: Pending -> bool, save: Pending -> bool, now: nat -> nat): Table
  {
    if fetch(p) && save(p) then MarkDownloaded(u, p.artId, name(p), now(k)) else u
  }

  /** With distinct ids, a turn keeps what the earlier turns did. */
  lemma {:induction false} TurnApplies(t: Table, u: Table, records: seq<Pending>, n: nat, name: Pending -> string,
                                       fetch: Pending -> bool, save: Pending -> bool, now: nat -> nat)
    requires n < |records| && DistinctPending(records)
    requires Applied(t, u, records, n, name, fetch, save, now)
    ensures Applied(t, Turn(u, records[n], n, name, fetch, save, now), records, n + 1, name, fetch, save, now)
  {
    TurnKeepsRows(t, u, records[n], n, name, fetch, save, now);
    TurnRecordsSaved(t, u, records, n, name, fetch, save, now);
    TurnLeavesOthers(t, u, records, n, name, fetch, save, now);
  }

  /** A turn changes rows only in their download columns. */
  lemma {:induction false} TurnKeepsRows(t: Table, u: Table, p: Pending, k: nat, name: Pending -> string,
                                         fetch: Pending -> bool, save: Pending -> bool, now: nat -> nat)
    requires |u| == |t| && forall r | 0 <= r < |t| :: SameExceptDownload(u[r], t[r])
    ensures forall r | 0 <= r < |t| :: u[r].artId == t[r].artId
    ensures var v := Turn(u, p, k, name, fetch, save, now);
      |v| == |t| && forall r | 0 <= r < |t| :: SameExceptDownload(v[r], t[r])
  {
    var v := Turn(u, p, k, name, fetch, save, now);
    forall r | 0 <= r < |t|
      ensures SameExceptDownload(v[r], t[r]) && u[r].artId == t[r].artId
    {
      SameExceptDownloadTrans(v[r], u[r], t[r]);
    }
  }

  /** After a turn, every saved record among the first `n + 1` has its row
      filled in. */
  lemma {:induction false} TurnRecordsSaved(t: Table, u: Table, records: seq<Pending>, n: nat, name: Pending -> string,
                                            fetch: Pending -> bool, save: Pending -> bool, now: nat -> nat)
    requires n < |records| && DistinctPending(records)
    requires |u| == |t| && forall r | 0 <= r < |t| :: u[r].artId == t[r].artId
    requires forall r, k | 0 <= r < |t| && 0 <= k < n && t[r].artId == records[k].artId && fetch(records[k]) && save(records[k]) ::
          u[r].fileName == Some(name(records[k])) && u[r].modified == now(k)
    ensures var v := Turn(u, records[n], n, name, fetch, save, now);
      forall r, k | 0 <= r < |t| && 0 <= k < n + 1 && t[r].artId == records[k].artId && fetch(records[k]) && save(records[k]) ::
          v[r].fileName == Some(name(records[k])) && v[r].modified == now(k)
  {
    var p := records[n];
    var v := Turn(u, p, n, name, fetch, save, now);
    forall r, k | 0 <= r < |t| && 0 <= k < n + 1 && t[r].artId == records[k].artId && fetch(records[k]) && save(records[k])
      ensures v[r].fileName == Some(name(records[k])) && v[r].modified == now(k)
    {
      if k < n {
        assert records[k].artId != p.artId;
      }
    }
  }

  /** After a turn, every row not saved among the first `n + 1` records is
      still the table's original row. */
  lemma {:induction false} TurnLeavesOthers(t: Table, u: Table, records: seq<Pending>, n: nat, name: Pending -> string,
                                            fetch: Pending -> bool, save: Pending -> bool, now: nat -> nat)
    requires n < |records|
    requires |u| == |t| && forall r | 0 <= r < |t| :: u[r].artId == t[r].artId
    requires forall r | 0 <= r < |t| && t[r].artId !in SavedIds(records, n, fetch, save) :: u[r] == t[r]
    ensures var v := Turn(u, records[n], n, name, fetch, save, now);
      forall r | 0 <= r < |t| && t[r].artId !in SavedIds(records, n + 1, fetch, save) :: v[r] == t[r]
  {
    var p := records[n];
    var v := Turn(u, p, n, name, fetch, save, now);
    forall r | 0 <= r < |t| && t[r].artId !in SavedIds(records, n + 1, fetch, save)
      ensures v[r] == t[r]
    {
      assert t[r].artId !in SavedIds(records, n, fetch, save);
      if fetch(p) && save(p) {
        assert p.artId in SavedIds(records, n + 1, fetch, save);
      }
    }
  }

  /** The loop of `download` over given records, each saved under the name
      `name` gives it. */
  method DownloadAll(t: Table, records: seq<Pending>, delayMs: nat, name: Pending -> string,
                     fetch: Pending -> bool, save: Pending -> bool, now: nat -> nat)
    returns (u: Table, trace: seq<Event>)
    requires Valid(t) && DistinctPending(records)
    ensures trace == Trace(records, name, fetch, save, delayMs)
    ensures Valid(u) && Urls(u) == Urls(t) && Ids(u) == Ids(t)
    ensures Applied(t, u, records, |records|, name, fetch, save, now)
  {
    u, trace := t, [];
    var i := 0;
    while i < |records|
      invariant 0 <= i <= |records|
      invariant trace == Trace(records[..i], name, fetch, save, delayMs)
      invariant Valid(u) && Urls(u) == Urls(t) && Ids(u) == Ids(t)
      invariant Applied(t, u, records, i, name, fetch, save, now)
    {
      var p := records[i];
      TurnApplies(t, u, records, i, name, fetch, save, now);
      u := Turn(u, p, i, name, fetch, save, now);
      TraceStep(records, i, name, fetch, save, delayMs);
      trace := trace + RecordEvents(p, name(p), fetch, save, delayMs);
      i := i + 1;
    }
    assert records[..i] == records;
  }

  /** The trace of one more record is the earlier trace followed by that
      record's events. */
  lemma {:induction false} TraceStep(records: seq<Pending>, i: nat, name: Pending -> string,
                                     fetch: Pending -> bool, save: Pending -> bool, delayMs: nat)
    requires i < |records|
    ensures Trace(records[..i + 1], name, fetch, save, delayMs)
      == Trace(records[..i], name, fetch, save, delayMs) + RecordEvents(records[i], name(records[i]), fetch, save, delayMs)
  {
    assert records[..i + 1][..i] == records[..i];
  }

  /** `download(max = 100, delayMs = 7500)`. The selection is the answer of
      the random query, `None` when it was rejected: that is logged and
      nothing is downloaded. For each record the file is fetched; when the
      file is written, its name is saved on the record's row with the clock
      reading `now(k)`; a failure of either is logged and the loop goes on. */
  method Download(t: Table, max: Option<int>, delayMs: Option<nat>, selection: Option<seq<Pending>>,
                  fetch: Pending -> bool, save: Pending -> bool, now: nat -> nat)
    returns (u: Table, trace: seq<Event>)
    requires Valid(t)
    requires selection.Some? ==> IsMissingSelection(t, GetOr(max, 100), selection.value)
    ensures trace == Trace(GetOr(selection, []), CreateFileName, fetch, save, GetOr(delayMs, 7500))
    ensures selection.None? ==> u == t && trace == []
    ensures Valid(u) && |u| == |t| && Urls(u) == Urls(t) && Ids(u) == Ids(t)
    ensures forall r | 0 <= r < |t| && t[r].fileName.Some? :: u[r] == t[r]
    ensures Applied(t, u, GetOr(selection, []), |GetOr(selection, [])|, CreateFileName, fetch, save, now)
  {
    var records := GetOr(selection, []);
    if selection.Some? {
      SelectionIsPending(t, GetOr(max, 100), records);
    }
    u, trace := DownloadAll(t, records, GetOr(delayMs, 7500), CreateFileName, fetch, save, now);
    forall r | 0 <= r < |t| && t[r].fileName.Some?
      ensures t[r].artId !in SavedIds(records, |records|, fetch, save)
    {
      assert forall k | 0 <= k < |records| :: records[k].artId != t[r].artId;
    }
  }
}
