/** The row codec: one hit as one 12-cell CSV row (ExportRow), the header
    export writes above the rows, and the two directions between them:
    encoding a hit into cells, and reading cells back (ExportRow.Read) and
    checking them into a hit (ExportRow.Hit). */
module Codec {
  import opened Wrappers
  import opened Text
  import opened Hits
  import opened Seqs

  /** The schema version, written as the prefix of the first header cell. */
  const ExportVersion := "1"

  /** The number of fields of ExportRow, which is the number of cells of a row. */
  const FieldCount := 12

  /** The header row export writes first. */
  const Header: seq<string> := [ExportVersion + "Path", "Title", "Event", "Bot", "Session",
    "FirstVisit", "Referrer", "Referrer scheme", "Browser", "Screen size", "Location", "Date"]

  /** One row as text, fields in the order of the cells. */
  datatype ExportRow = ExportRow(
    path: string,
    title: string,
    event: string,
    bot: string,
    session: string,
    firstVisit: string,
    ref: string,
    refScheme: string,
    browser: string,
    size: string,
    location: string,
    createdAt: string)

  /** The zero value of ExportRow. */
  const EmptyRow := ExportRow("", "", "", "", "", "", "", "", "", "", "", "")

  /** The fields of a row by position. */
  function Cells(row: ExportRow): (cells: seq<string>)
    ensures |cells| == FieldCount
  {
    [row.path, row.title, row.event, row.bot, row.session, row.firstVisit,
     row.ref, row.refScheme, row.browser, row.size, row.location, row.createdAt]
  }

  /** The row whose fields are the given cells, in order. */
  function FromCells(cells: seq<string>): (row: ExportRow)
    requires |cells| == FieldCount
    ensures Cells(row) == cells
  {
    ExportRow(cells[0], cells[1], cells[2], cells[3], cells[4], cells[5],
              cells[6], cells[7], cells[8], cells[9], cells[10], cells[11])
  }

  lemma FromCellsOfCells(row: ExportRow)
    ensures FromCells(Cells(row)) == row
  {
  }

  /** The row with field i set to v and every other field kept. */
  function WithField(row: ExportRow, i: nat, v: string): (r: ExportRow)
    requires i < FieldCount
    ensures Cells(r) == Cells(row)[i := v]
  {
    match i
    case 0 => row.(path := v)
    case 1 => row.(title := v)
    case 2 => row.(event := v)
    case 3 => row.(bot := v)
    case 4 => row.(session := v)
    case 5 => row.(firstVisit := v)
    case 6 => row.(ref := v)
    case 7 => row.(refScheme := v)
    case 8 => row.(browser := v)
    case 9 => row.(size := v)
    case 10 => row.(location := v)
    case 11 => row.(createdAt := v)
  }

  /** The error ExportRow.Read returns for a line of the wrong length. */
  datatype ReadError = WrongFieldCount(got: nat, want: nat)

  /** ExportRow.Read: a line of exactly FieldCount cells is copied into the
      row field by field, in order; any other line is refused and the row is
      left as it was. */
  method Read(row: ExportRow, line: seq<string>) returns (r: ExportRow, err: Option<ReadError>)
    ensures |line| != FieldCount ==> err == Some(WrongFieldCount(|line|, FieldCount)) && r == row
    ensures |line| == FieldCount ==> err == None && Cells(r) == line
  {
    if |line| != FieldCount {
      return row, Some(WrongFieldCount(|line|, FieldCount));
    }
    r := row;
    var i := 0;
    while i < |line|
      invariant 0 <= i <= |line|
      invariant forall j :: 0 <= j < i ==> Cells(r)[j] == line[j]
    {
      r := WithField(r, i, line[i]);
      i := i + 1;
    }
    err := None;
  }

  // ------------------------------------------------------------------ library

  /** What a zvalidate validator gives back: the value it parsed (whatever it
      returns when parsing fails) and whether parsing succeeded; a failure is
      recorded in the validator under the field's key. */
  datatype Parsed<T> = Parsed(value: T, ok: bool)

  /** The library code the codec calls, taken as parameters. */
  datatype Library = Library(
    parseBool: string -> Parsed<bool>,              // zvalidate Validator.Boolean
    parseInt: string -> Parsed<int>,                // zvalidate Validator.Integer
    parseDate: string -> Parsed<Time>,              // zvalidate Validator.Date, RFC 3339 layout
    formatDate: Time -> string,                     // time.Time.Format, RFC 3339 layout
    parseSize: string -> Result<ScreenSize, string>, // the screen size's UnmarshalText
    joinSize: ScreenSize -> string)                 // zfloat.Join with ","

  /** The library reads back what the export wrote for the hit h: its flags,
      its bot value, its date and its screen size, the facts the codec's
      round trip rests on and nothing else. Only h's own texts are asked for,
      since no parser can read back every list of reals from a string. */
  ghost predicate FaithfulFor(lib: Library, h: Hit)
  {
    && lib.parseBool("true") == Parsed(true, true)
    && lib.parseBool("false") == Parsed(false, true)
    && lib.parseInt(FormatInt(h.bot)) == Parsed(h.bot, true)
    && lib.parseDate(lib.formatDate(h.createdAt)) == Parsed(h.createdAt, true)
    && (h.size == [] <==> lib.joinSize(h.size) == "")
    && (h.size != [] ==> lib.parseSize(lib.joinSize(h.size)) == Success(h.size))
  }

  /** The value paired with the first key s, or dflt when there is none. */
  function Lookup<T>(keys: seq<string>, vals: seq<T>, s: string, dflt: T): T
    requires |keys| == |vals|
  {
    if keys == [] then dflt
    else if keys[0] == s then vals[0]
    else Lookup(keys[1..], vals[1..], s, dflt)
  }

  /** Where keys agree the values agree, so the lookup of a key finds its value. */
  lemma {:induction false} LookupFinds<T>(keys: seq<string>, vals: seq<T>, i: nat, dflt: T)
    requires |keys| == |vals| && i < |keys|
    requires forall j :: 0 <= j < |keys| && keys[j] == keys[i] ==> vals[j] == vals[i]
    ensures Lookup(keys, vals, keys[i], dflt) == vals[i]
  {
    if keys[0] != keys[i] {
      assert i > 0;
      var ks, vs := keys[1..], vals[1..];
      forall j | 0 <= j < |ks| && ks[j] == ks[i - 1]
        ensures vs[j] == vs[i - 1]
      {
        assert keys[j + 1] == keys[i];
      }
      LookupFinds(ks, vs, i - 1, dflt);
    }
  }

  /** Numbering the values of a list and looking the numbers up reads every
      value back. */
  lemma NumberedReadsBack<T>(xs: seq<T>, x: T, dflt: T)
    requires x in xs
    ensures var idx := seq(|xs|, i requires 0 <= i < |xs| => FormatInt(i));
      Lookup(idx, xs, FormatInt(IndexOf(xs, x)), dflt) == x
  {
    var idx := seq(|xs|, i requires 0 <= i < |xs| => FormatInt(i));
    var p := IndexOf(xs, x);
    forall j | 0 <= j < |idx| && idx[j] == idx[p]
      ensures xs[j] == xs[p]
    {
      FormatIntInjective(j, p);
    }
    LookupFinds(idx, xs, p, dflt);
  }

  /** The library reads back what the export wrote for every hit of hs. */
  ghost predicate FaithfulForAll(lib: Library, hs: seq<Hit>)
  {
    forall h :: h in hs ==> FaithfulFor(lib, h)
  }

  /** A library that numbers the dates and sizes of hs and looks them up. */
  function NumberingLibrary(hs: seq<Hit>): Library
  {
    var bots := seq(|hs|, i requires 0 <= i < |hs| => hs[i].bot);
    var botKeys := seq(|hs|, i requires 0 <= i < |hs| => FormatInt(hs[i].bot));
    var dates := seq(|hs|, i requires 0 <= i < |hs| => hs[i].createdAt);
    var sizes := seq(|hs|, i requires 0 <= i < |hs| => hs[i].size);
    var idx := seq(|hs|, i requires 0 <= i < |hs| => FormatInt(i));
    Library(
      s => Parsed(s == "true", s == "true" || s == "false"),
      s => Parsed(Lookup(botKeys, bots, s, 0), true),
      s => Parsed(Lookup(idx, dates, s, Time(0, 0)), true),
      t => if t in dates then FormatInt(IndexOf(dates, t)) else "",
      s => Success(Lookup(idx, sizes, s, [])),
      z => if z == [] || z !in sizes then "" else FormatInt(IndexOf(sizes, z)))
  }

  /** The numbering library reads back every hit of its list. */
  lemma NumberingFaithful(hs: seq<Hit>, i: nat)
    requires i < |hs|
    ensures FaithfulFor(NumberingLibrary(hs), hs[i])
  {
    var h := hs[i];
    var bots := seq(|hs|, i requires 0 <= i < |hs| => hs[i].bot);
    var botKeys := seq(|hs|, i requires 0 <= i < |hs| => FormatInt(hs[i].bot));
    var dates := seq(|hs|, i requires 0 <= i < |hs| => hs[i].createdAt);
    var sizes := seq(|hs|, i requires 0 <= i < |hs| => hs[i].size);
    forall j | 0 <= j < |hs| && botKeys[j] == botKeys[i]
      ensures bots[j] == bots[i]
    {
      FormatIntInjective(hs[j].bot, hs[i].bot);
    }
    LookupFinds(botKeys, bots, i, 0);
    assert dates[i] == h.createdAt && sizes[i] == h.size;
    NumberedReadsBack(dates, h.createdAt, Time(0, 0));
    NumberedReadsBack(sizes, h.size, []);
  }

  /** For every list of hits some library reads back what the export wrote
      for each of them: the premise of the round trip can be met. */
  lemma FaithfulLibraryExists(hs: seq<Hit>)
    ensures exists lib :: FaithfulForAll(lib, hs)
  {
    var lib := NumberingLibrary(hs);
    forall h | h in hs
      ensures FaithfulFor(lib, h)
    {
      var i :| 0 <= i < |hs| && hs[i] == h;
      NumberingFaithful(hs, i);
    }
    assert FaithfulForAll(lib, hs);
  }

  // ----------------------------------------------------------------- encoding

  /** The session cell: a legacy numeric session in decimal, otherwise the
      UUID text of the session's 16 bytes. */
  function SessionCell(h: Hit): (s: string)
    ensures h.oldSession.Some? ==> s == FormatInt(h.oldSession.value)
    ensures h.oldSession.None? ==> s == UuidString(SessionBytes(h.session))
  {
    if h.oldSession.Some? then FormatInt(h.oldSession.value) else UuidString(SessionBytes(h.session))
  }

  /** A 128-bit session is written as 36 characters from which its 16 bytes,
      and so the session, can be read back. */
  lemma SessionCellReadsBack(h: Hit)
    requires h.oldSession.None?
    ensures |SessionCell(h)| == 36
    ensures UuidBytes(SessionCell(h)) == Some(SessionBytes(h.session))
    ensures BigEndianValue(UuidBytes(SessionCell(h)).value) == h.session
  {
    UuidRoundTrip(SessionBytes(h.session));
  }

  /** The two shapes of the session cell cannot be confused, and each one
      determines the session it was written from. */
  lemma SessionCellDetermines(h: Hit, k: Hit)
    requires SessionCell(h) == SessionCell(k)
    ensures h.oldSession.Some? <==> k.oldSession.Some?
    ensures h.oldSession.Some? ==> h.oldSession == k.oldSession
    ensures h.oldSession.None? ==> h.session == k.session
  {
    if h.oldSession.Some? && k.oldSession.Some? {
      FormatIntInjective(h.oldSession.value, k.oldSession.value);
    } else if h.oldSession.Some? {
      DecimalIsNotUuid(h.oldSession.value, SessionBytes(k.session));
    } else if k.oldSession.Some? {
      DecimalIsNotUuid(k.oldSession.value, SessionBytes(h.session));
    } else {
      SessionCellReadsBack(h);
      SessionCellReadsBack(k);
    }
  }

  /** The row export writes for one hit. */
  function EncodeRow(h: Hit, lib: Library): (cells: seq<string>)
    ensures |cells| == FieldCount
  {
    var rs := if h.refScheme.Some? then h.refScheme.value else "";
    [h.path, h.title, FormatBool(h.event), FormatInt(h.bot), SessionCell(h), FormatBool(h.firstVisit),
     h.ref, rs, h.browser, lib.joinSize(h.size), h.location, lib.formatDate(h.createdAt)]
  }

  /** What each cell of a hit's row holds: the text fields as they are, the
      booleans as "true" or "false", the bot flag in decimal, the session as
      SessionCell writes it (36 characters for a 128-bit session), and the
      referrer scheme, which is empty exactly when the hit has none (or an
      empty one). */
  lemma EncodeRowCells(h: Hit, lib: Library)
    ensures var cells := EncodeRow(h, lib);
      && cells[0] == h.path && cells[1] == h.title && cells[6] == h.ref
      && cells[8] == h.browser && cells[10] == h.location
      && cells[2] in {"true", "false"} && (cells[2] == "true" <==> h.event)
      && cells[5] in {"true", "false"} && (cells[5] == "true" <==> h.firstVisit)
      && cells[3] == FormatInt(h.bot)
      && cells[4] == SessionCell(h)
      && (h.oldSession.None? ==> |cells[4]| == 36)
      && (cells[7] == "" <==> h.refScheme.None? || h.refScheme.value == "")
      && (h.refScheme.Some? ==> cells[7] == h.refScheme.value)
      && cells[9] == lib.joinSize(h.size) && cells[11] == lib.formatDate(h.createdAt)
  {
  }

  /** f applied to every element of s, in order. */
  function Map<A, B>(f: A -> B, s: seq<A>): (r: seq<B>)
    ensures |r| == |s|
  {
    seq(|s|, i requires 0 <= i < |s| => f(s[i]))
  }

  lemma MapAppend<A, B>(f: A -> B, s: seq<A>, t: seq<A>)
    ensures Map(f, s + t) == Map(f, s) + Map(f, t)
  {
    var a, b, c := Map(f, s + t), Map(f, s), Map(f, t);
    forall i | 0 <= i < |a|
      ensures a[i] == (b + c)[i]
    {
      if i < |s| {
        assert (s + t)[i] == s[i];
      } else {
        assert (s + t)[i] == t[i - |s|];
      }
    }
  }

  /** EncodeRow as a function value. */
  function RowOf(lib: Library): Hit -> seq<string>
  {
    h => EncodeRow(h, lib)
  }

  /** The rows written for a sequence of hits, one per hit, in order. */
  function Rows(hs: seq<Hit>, lib: Library): (rows: seq<seq<string>>)
    ensures |rows| == |hs|
  {
    Map(RowOf(lib), hs)
  }

  lemma RowsAppend(hs: seq<Hit>, more: seq<Hit>, lib: Library)
    ensures Rows(hs + more, lib) == Rows(hs, lib) + Rows(more, lib)
  {
    MapAppend(RowOf(lib), hs, more);
  }

  // ----------------------------------------------------------------- decoding

  /** The fields ExportRow.Hit validates. */
  datatype Checked = Path | Event | Bot | FirstVisit | CreatedAt | RefScheme

  /** Why ExportRow.Hit refused a row: the fields the validator recorded, or
      the screen size's parse error. */
  datatype HitError = Invalid(fields: set<Checked>) | BadSize(msg: string)

  /** The fields the validator records failures for. */
  function Failures(row: ExportRow, lib: Library): (fields: set<Checked>)
    ensures Path in fields <==> row.path == ""
    ensures Event in fields <==> !lib.parseBool(row.event).ok
    ensures Bot in fields <==> !lib.parseInt(row.bot).ok
    ensures FirstVisit in fields <==> !lib.parseBool(row.firstVisit).ok
    ensures CreatedAt in fields <==> !lib.parseDate(row.createdAt).ok
    ensures RefScheme in fields <==> row.refScheme != "" && row.refScheme !in RefSchemes
  {
    (if row.path == "" then {Path} else {})
    + (if !lib.parseBool(row.event).ok then {Event} else {})
    + (if !lib.parseInt(row.bot).ok then {Bot} else {})
    + (if !lib.parseBool(row.firstVisit).ok then {FirstVisit} else {})
    + (if !lib.parseDate(row.createdAt).ok then {CreatedAt} else {})
    + (if row.refScheme != "" && row.refScheme !in RefSchemes then {RefScheme} else {})
  }

  /** ExportRow.Hit: the hit a row describes, or why it was refused. A
      non-empty screen size cell decides the outcome alone: its parse error,
      or success, and every other validation failure is then dropped. */
  function ToHit(row: ExportRow, siteID: int, lib: Library): (r: Result<Hit, HitError>)
    ensures row.size == "" ==>
      (r.Success? <==>
         && row.path != ""
         && lib.parseBool(row.event).ok
         && lib.parseInt(row.bot).ok
         && lib.parseBool(row.firstVisit).ok
         && lib.parseDate(row.createdAt).ok
         && (row.refScheme == "" || row.refScheme in RefSchemes))
    ensures row.size == "" && r.Failure? ==> r.error == Invalid(Failures(row, lib))
    ensures row.size != "" ==> (r.Success? <==> lib.parseSize(row.size).Success?)
    ensures row.size != "" && r.Failure? ==> r.error == BadSize(lib.parseSize(row.size).error)
    ensures r.Success? ==>
      && r.value.site == siteID && r.value.id == 0
      && r.value.path == row.path && r.value.title == row.title && r.value.ref == row.ref
      && r.value.browser == row.browser && r.value.location == row.location
      && r.value.event == lib.parseBool(row.event).value
      && r.value.bot == lib.parseInt(row.bot).value
      && r.value.firstVisit == lib.parseBool(row.firstVisit).value
      && r.value.createdAt == lib.parseDate(row.createdAt).value
      && r.value.refScheme == (if row.refScheme == "" then None else Some(row.refScheme))
      && r.value.size == (if row.size == "" then [] else lib.parseSize(row.size).value)
      && r.value.session == 0 && r.value.oldSession == None
  {
    var hit := Hit(
      id := 0, site := siteID, path := row.path, title := row.title,
      event := lib.parseBool(row.event).value, bot := lib.parseInt(row.bot).value,
      session := 0, oldSession := None, firstVisit := lib.parseBool(row.firstVisit).value,
      ref := row.ref, refScheme := if row.refScheme == "" then None else Some(row.refScheme),
      browser := row.browser, size := [], location := row.location,
      createdAt := lib.parseDate(row.createdAt).value);
    if row.size != "" then
      match lib.parseSize(row.size)
      case Success(z) => Success(hit.(size := z))
      case Failure(e) => Failure(BadSize(e))
    else
      var failed := Failures(row, lib);
      if failed == {} then Success(hit) else Failure(Invalid(failed))
  }

  // --------------------------------------------------------------- round trip

  /** A hit import can accept: a path, and a known referrer scheme if any. */
  predicate ValidHit(h: Hit)
  {
    h.path != "" && (h.refScheme.Some? ==> h.refScheme.value in RefSchemes)
  }

  /** What import rebuilds from a hit's row for a site: the hit itself, moved
      to that site, without its ID and without its session (import assigns
      sessions itself). */
  function Canonical(h: Hit, siteID: int): Hit
  {
    h.(id := 0, site := siteID, session := 0, oldSession := None)
  }

  /** Decoding the row export writes for a valid hit gives the hit back. */
  lemma RoundTrip(h: Hit, siteID: int, lib: Library)
    requires FaithfulFor(lib, h) && ValidHit(h)
    ensures ToHit(FromCells(EncodeRow(h, lib)), siteID, lib) == Success(Canonical(h, siteID))
  {
    var row := FromCells(EncodeRow(h, lib));
    assert lib.parseInt(FormatInt(h.bot)) == Parsed(h.bot, true);
    assert lib.parseDate(lib.formatDate(h.createdAt)) == Parsed(h.createdAt, true);
    if h.size != [] {
      assert lib.parseSize(lib.joinSize(h.size)) == Success(h.size);
    }
  }
}
