/** Import: the header version gate, the optional wipe, and the loop that
    reads, decodes and validates each line, remaps its session token and
    appends the hit, collecting every per-line failure instead of stopping. */
module Importer {
  import opened Wrappers
  import opened Text
  import opened Hits
  import opened Codec
  import opened Seqs

  /** One record as the CSV reader hands it over, or the reader's error for it. */
  datatype Line = Record(cells: seq<string>) | Unreadable(msg: string)

  /** Why a line was skipped: the CSV reader failed, ExportRow.Read refused
      its shape, or ExportRow.Hit refused its contents. */
  datatype RowError = CsvError(msg: string) | ShapeError(readError: ReadError) | HitRefused(hitError: HitError)

  /** A line that decoded: its session token and the hit it describes. */
  datatype Decoded = Decoded(token: string, hit: Hit)

  /** What the loop does with one line up to the session remap. */
  function DecodeLine(line: Line, siteID: int, lib: Library): (r: Result<Decoded, RowError>)
    ensures line.Unreadable? ==> r == Failure(CsvError(line.msg))
    ensures line.Record? && |line.cells| != FieldCount ==> r == Failure(ShapeError(WrongFieldCount(|line.cells|, FieldCount)))
    ensures r.Success? <==> line.Record? && |line.cells| == FieldCount && ToHit(FromCells(line.cells), siteID, lib).Success?
    ensures r.Success? ==> r.value.token == line.cells[4] && r.value.hit == ToHit(FromCells(line.cells), siteID, lib).value
  {
    match line
    case Unreadable(msg) => Failure(CsvError(msg))
    case Record(cells) =>
      if |cells| != FieldCount then Failure(ShapeError(WrongFieldCount(|cells|, FieldCount)))
      else
        var row := FromCells(cells);
        match ToHit(row, siteID, lib)
        case Failure(e) => Failure(HitRefused(e))
        case Success(h) => Success(Decoded(row.session, h))
  }

  /** The outcome of every line, in input order. */
  function DecodeAll(lines: seq<Line>, siteID: int, lib: Library): (os: seq<Result<Decoded, RowError>>)
    ensures |os| == |lines|
  {
    seq(|lines|, i requires 0 <= i < |lines| => DecodeLine(lines[i], siteID, lib))
  }

  lemma DecodeAllSnoc(lines: seq<Line>, i: nat, siteID: int, lib: Library)
    requires i < |lines|
    ensures DecodeAll(lines[..i + 1], siteID, lib) == DecodeAll(lines[..i], siteID, lib) + [DecodeLine(lines[i], siteID, lib)]
  {
    var a, b := DecodeAll(lines[..i + 1], siteID, lib), DecodeAll(lines[..i], siteID, lib);
    assert |a| == |b| + 1;
    forall k | 0 <= k < |a|
      ensures a[k] == (b + [DecodeLine(lines[i], siteID, lib)])[k]
    {
      assert lines[..i + 1][k] == lines[k];
      if k < i {
        assert lines[..i][k] == lines[k];
      }
    }
  }

  /** The successful outcomes' values, in order. */
  function Good(os: seq<Result<Decoded, RowError>>): seq<Decoded>
  {
    if os == [] then []
    else
      var front := Good(os[..|os| - 1]);
      match os[|os| - 1]
      case Success(d) => front + [d]
      case Failure(_) => front
  }

  /** The failed outcomes' errors, in order. */
  function Errors(os: seq<Result<Decoded, RowError>>): seq<RowError>
  {
    if os == [] then []
    else
      var front := Errors(os[..|os| - 1]);
      match os[|os| - 1]
      case Success(_) => front
      case Failure(e) => front + [e]
  }

  /** The positions of the successful outcomes: the k-th hit import appends
      comes from line GoodIndices(..)[k]. */
  function GoodIndices(os: seq<Result<Decoded, RowError>>): (idx: seq<nat>)
    ensures |idx| == |Good(os)|
    ensures forall k :: 0 <= k < |idx| ==> idx[k] < |os|
  {
    if os == [] then []
    else
      var last := |os| - 1;
      var front := GoodIndices(os[..last]);
      if os[last].Success? then front + [last] else front
  }

  /** The positions ascend. */
  lemma {:induction false} GoodIndicesAscend(os: seq<Result<Decoded, RowError>>)
    ensures forall a, b :: 0 <= a < b < |GoodIndices(os)| ==> GoodIndices(os)[a] < GoodIndices(os)[b]
  {
    if os != [] {
      var last := |os| - 1;
      GoodIndicesAscend(os[..last]);
      var front := GoodIndices(os[..last]);
      if os[last].Success? {
        var idx := front + [last];
        assert GoodIndices(os) == idx;
        forall a, b | 0 <= a < b < |idx|
          ensures idx[a] < idx[b]
        {
          assert idx[a] == front[a];
          if b < |front| {
            assert idx[b] == front[b];
          }
        }
      } else {
        assert GoodIndices(os) == front;
      }
    }
  }

  /** Exactly the successful lines are listed. */
  lemma {:induction false} GoodIndicesExact(os: seq<Result<Decoded, RowError>>)
    ensures forall i :: 0 <= i < |os| ==> (i in GoodIndices(os) <==> os[i].Success?)
  {
    if os != [] {
      var last := |os| - 1;
      var front := os[..last];
      GoodIndicesExact(front);
      forall i | 0 <= i < |os|
        ensures i in GoodIndices(os) <==> os[i].Success?
      {
        if i < last {
          assert front[i] == os[i];
        }
      }
    }
  }

  /** The k-th decoded value is the value of the line at the k-th position. */
  lemma {:induction false} GoodIndicesPick(os: seq<Result<Decoded, RowError>>)
    ensures var idx := GoodIndices(os);
      forall k :: 0 <= k < |idx| ==> os[idx[k]] == Success(Good(os)[k])
  {
    if os != [] {
      var last := |os| - 1;
      var front := os[..last];
      GoodIndicesPick(front);
      var idx, g := GoodIndices(os), Good(os);
      forall k | 0 <= k < |idx|
        ensures os[idx[k]] == Success(g[k])
      {
        if k < |GoodIndices(front)| {
          assert idx[k] == GoodIndices(front)[k] && g[k] == Good(front)[k];
          assert front[idx[k]] == os[idx[k]];
        }
      }
    }
  }

  /** Every line either decodes or adds exactly one failure. */
  lemma {:induction false} GoodAndErrorsPartition(os: seq<Result<Decoded, RowError>>)
    ensures |Good(os)| + |Errors(os)| == |os|
  {
    if os != [] {
      GoodAndErrorsPartition(os[..|os| - 1]);
    }
  }

  /** When every line decodes, nothing is refused and every decoded line is kept. */
  lemma {:induction false} AllDecoded(os: seq<Result<Decoded, RowError>>)
    requires forall k :: 0 <= k < |os| ==> os[k].Success?
    ensures Errors(os) == [] && |Good(os)| == |os|
    ensures forall k :: 0 <= k < |os| ==> Good(os)[k] == os[k].value
  {
    if os != [] {
      var front := os[..|os| - 1];
      assert forall k :: 0 <= k < |front| ==> front[k] == os[k];
      AllDecoded(front);
    }
  }

  // ------------------------------------------------------------ session remap

  function Tokens(ds: seq<Decoded>): (ts: seq<string>)
    ensures |ts| == |ds|
  {
    seq(|ds|, k requires 0 <= k < |ds| => ds[k].token)
  }

  lemma TokensSnoc(g: seq<Decoded>, d: Decoded)
    ensures Tokens(g + [d]) == Tokens(g) + [d.token]
  {
    assert Tokens(g + [d]) == Tokens(g) + [d.token];
  }

  /** The tokens in order of first appearance, each once. */
  function Distinct(ts: seq<string>): (d: seq<string>)
    ensures forall x :: x in d <==> x in ts
    ensures forall i, j :: 0 <= i < j < |d| ==> d[i] != d[j]
  {
    if ts == [] then []
    else
      var front := Distinct(ts[..|ts| - 1]);
      var t := ts[|ts| - 1];
      assert ts == ts[..|ts| - 1] + [t];
      if t in front then front else front + [t]
  }

  /** The session the hit of the k-th decoded line gets: the lookup of its
      token happens before the token is entered, so the first hit of a token
      gets the zero session and later ones the ID minted for the token; the
      j-th distinct token gets the j-th minted ID. */
  function AssignedSession(ts: seq<string>, k: nat, mint: nat -> Uint128): Uint128
    requires k < |ts|
  {
    if ts[k] in ts[..k] then mint(IndexOf(Distinct(ts), ts[k])) else 0
  }

  /** The remap table after tokens ts: one entry per distinct token, the j-th
      distinct token mapped to the j-th minted ID, and minted IDs counted. */
  ghost predicate SessionsFor(ts: seq<string>, mint: nat -> Uint128, sessions: map<string, Uint128>, minted: nat)
  {
    var d := Distinct(ts);
    && minted == |d|
    && (forall x :: x in sessions <==> x in ts)
    && (forall j :: 0 <= j < |d| ==> d[j] in sessions && sessions[d[j]] == mint(j))
  }

  /** A token already in the table leaves it as it is; its hit gets the
      stored ID, which is the one minted for the token. */
  lemma KnownTokenStep(ts: seq<string>, tok: string, mint: nat -> Uint128, sessions: map<string, Uint128>, minted: nat)
    requires SessionsFor(ts, mint, sessions, minted) && tok in sessions
    ensures SessionsFor(ts + [tok], mint, sessions, minted)
    ensures sessions[tok] == mint(IndexOf(Distinct(ts + [tok]), tok))
  {
    var ts' := ts + [tok];
    assert ts'[..|ts'| - 1] == ts;
    assert Distinct(ts') == Distinct(ts);
  }

  /** A new token is entered with the next minted ID. */
  lemma NewTokenStep(ts: seq<string>, tok: string, mint: nat -> Uint128, sessions: map<string, Uint128>, minted: nat)
    requires SessionsFor(ts, mint, sessions, minted) && tok !in sessions
    ensures SessionsFor(ts + [tok], mint, sessions[tok := mint(minted)], minted + 1)
  {
    var ts' := ts + [tok];
    assert ts'[..|ts'| - 1] == ts;
    var d := Distinct(ts);
    var d' := Distinct(ts');
    var sessions' := sessions[tok := mint(minted)];
    assert d' == d + [tok];
    forall j | 0 <= j < |d'|
      ensures d'[j] in sessions' && sessions'[d'[j]] == mint(j)
    {
      if j < |d| {
        assert d'[j] == d[j] != tok;
      }
    }
  }

  lemma AssignedSessionStable(ts: seq<string>, tok: string, k: nat, mint: nat -> Uint128)
    requires k < |ts|
    ensures AssignedSession(ts + [tok], k, mint) == AssignedSession(ts, k, mint)
  {
    var ts' := ts + [tok];
    assert ts'[..k] == ts[..k] && ts'[k] == ts[k];
    assert ts'[..|ts'| - 1] == ts;
    if ts[k] in ts[..k] {
      var d, d' := Distinct(ts), Distinct(ts');
      var j := IndexOf(d, ts[k]);
      assert d'[..j] == d[..j];
      IndexOfUnique(d', ts[k], j);
    }
  }

  // ---------------------------------------------------------------- the loop

  /** What the loop leaves behind: the hits handed to the store, the count n,
      the error group, the remap table and the number of minted IDs. */
  datatype Ingested = Ingested(hits: seq<Hit>, n: nat, errs: seq<RowError>, sessions: map<string, Uint128>, minted: nat)

  /** What the loop leaves behind after the decoded lines g: one hit per
      decoded line, in order, carrying the session AssignedSession gives it,
      and the remap table of their tokens. */
  ghost predicate Holds(g: seq<Decoded>, mint: nat -> Uint128, r: Ingested)
  {
    var ts := Tokens(g);
    && r.n == |g| && |r.hits| == |g|
    && SessionsFor(ts, mint, r.sessions, r.minted)
    && (forall k :: 0 <= k < |g| ==> r.hits[k] == g[k].hit.(session := AssignedSession(ts, k, mint)))
  }

  /** The loop's result for the given lines: Holds for the decoded lines,
      and one error per other line, in order. */
  ghost predicate Ingests(lines: seq<Line>, siteID: int, lib: Library, mint: nat -> Uint128, r: Ingested)
  {
    var os := DecodeAll(lines, siteID, lib);
    r.errs == Errors(os) && Holds(Good(os), mint, r)
  }

  lemma NothingIngested(lines: seq<Line>, siteID: int, lib: Library, mint: nat -> Uint128)
    ensures Ingests(lines[..0], siteID, lib, mint, Ingested([], 0, [], map[], 0))
  {
    assert lines[..0] == [];
    assert DecodeAll([], siteID, lib) == [];
  }

  /** One iteration on a line that is skipped: its failure joins the group. */
  lemma SkippedLineStep(lines: seq<Line>, i: nat, siteID: int, lib: Library, mint: nat -> Uint128, r: Ingested, e: RowError)
    requires i < |lines| && Ingests(lines[..i], siteID, lib, mint, r)
    requires DecodeLine(lines[i], siteID, lib) == Failure(e)
    ensures Ingests(lines[..i + 1], siteID, lib, mint, r.(errs := r.errs + [e]))
  {
    var os := DecodeAll(lines[..i], siteID, lib);
    DecodeAllSnoc(lines, i, siteID, lib);
    var os' := os + [Failure(e)];
    assert os'[..|os'| - 1] == os;
  }

  /** The earlier hits keep their sessions when a token is added. */
  lemma EarlierSessionsStay(g: seq<Decoded>, d: Decoded, hits: seq<Hit>, mint: nat -> Uint128)
    requires |hits| == |g|
    requires forall k :: 0 <= k < |g| ==> hits[k] == g[k].hit.(session := AssignedSession(Tokens(g), k, mint))
    ensures forall k :: 0 <= k < |g| ==> hits[k] == (g + [d])[k].hit.(session := AssignedSession(Tokens(g + [d]), k, mint))
  {
    var ts := Tokens(g);
    assert Tokens(g + [d]) == ts + [d.token];
    forall k | 0 <= k < |g| {
      AssignedSessionStable(ts, d.token, k, mint);
    }
  }

  /** Appending the hit of one more decoded line, with the session
      AssignedSession gives it, keeps hits and decoded lines in step. */
  lemma HitsSnoc(g: seq<Decoded>, d: Decoded, hits: seq<Hit>, mint: nat -> Uint128, s: Uint128)
    requires |hits| == |g|
    requires forall k :: 0 <= k < |g| ==> hits[k] == g[k].hit.(session := AssignedSession(Tokens(g), k, mint))
    requires s == AssignedSession(Tokens(g + [d]), |g|, mint)
    ensures var hits' := hits + [d.hit.(session := s)];
      forall k :: 0 <= k < |g| + 1 ==> hits'[k] == (g + [d])[k].hit.(session := AssignedSession(Tokens(g + [d]), k, mint))
  {
    EarlierSessionsStay(g, d, hits, mint);
  }

  /** The session the newest hit gets is the stored one when its token was
      seen before, and zero otherwise. */
  lemma LastSession(ts: seq<string>, tok: string, mint: nat -> Uint128, sessions: map<string, Uint128>, minted: nat)
    requires SessionsFor(ts, mint, sessions, minted)
    ensures tok in sessions ==> AssignedSession(ts + [tok], |ts|, mint) == sessions[tok]
    ensures tok !in sessions ==> AssignedSession(ts + [tok], |ts|, mint) == 0
  {
    assert (ts + [tok])[..|ts|] == ts;
    if tok in sessions {
      KnownTokenStep(ts, tok, mint, sessions, minted);
    }
  }

  /** Holds extends by one decoded line once the table is right for its token
      and its hit carries the session AssignedSession gives it. */
  lemma HoldsSnoc(g: seq<Decoded>, d: Decoded, mint: nat -> Uint128, r: Ingested, s: Uint128, r': Ingested)
    requires Holds(g, mint, r)
    requires SessionsFor(Tokens(g + [d]), mint, r'.sessions, r'.minted)
    requires s == AssignedSession(Tokens(g + [d]), |g|, mint)
    requires r'.hits == r.hits + [d.hit.(session := s)] && r'.n == r.n + 1
    ensures Holds(g + [d], mint, r')
  {
    HitsSnoc(g, d, r.hits, mint, s);
  }

  /** A decoded line whose token is in the table: its hit gets the stored
      session and the table stays as it is. */
  lemma KnownTokenHolds(g: seq<Decoded>, d: Decoded, mint: nat -> Uint128, r: Ingested)
    requires Holds(g, mint, r) && d.token in r.sessions
    ensures Holds(g + [d], mint, r.(hits := r.hits + [d.hit.(session := r.sessions[d.token])], n := r.n + 1))
  {
    var ts := Tokens(g);
    TokensSnoc(g, d);
    KnownTokenStep(ts, d.token, mint, r.sessions, r.minted);
    LastSession(ts, d.token, mint, r.sessions, r.minted);
    HoldsSnoc(g, d, mint, r, r.sessions[d.token], r.(hits := r.hits + [d.hit.(session := r.sessions[d.token])], n := r.n + 1));
  }

  /** A decoded line whose token is new: its hit gets the zero session and the
      token is entered with the next minted ID. */
  lemma NewTokenHolds(g: seq<Decoded>, d: Decoded, mint: nat -> Uint128, r: Ingested)
    requires Holds(g, mint, r) && d.token !in r.sessions
    ensures Holds(g + [d], mint, Ingested(r.hits + [d.hit.(session := 0)], r.n + 1, r.errs,
                                          r.sessions[d.token := mint(r.minted)], r.minted + 1))
  {
    var ts := Tokens(g);
    TokensSnoc(g, d);
    NewTokenStep(ts, d.token, mint, r.sessions, r.minted);
    LastSession(ts, d.token, mint, r.sessions, r.minted);
    HoldsSnoc(g, d, mint, r, 0, Ingested(r.hits + [d.hit.(session := 0)], r.n + 1, r.errs,
                                         r.sessions[d.token := mint(r.minted)], r.minted + 1));
  }

  /** A line that decodes to d adds d to the decoded lines and no error. */
  lemma DecodedLineStep(lines: seq<Line>, i: nat, siteID: int, lib: Library, mint: nat -> Uint128, r: Ingested, d: Decoded,
                        r': Ingested)
    requires i < |lines| && Ingests(lines[..i], siteID, lib, mint, r)
    requires DecodeLine(lines[i], siteID, lib) == Success(d)
    requires r'.errs == r.errs && Holds(Good(DecodeAll(lines[..i], siteID, lib)) + [d], mint, r')
    ensures Ingests(lines[..i + 1], siteID, lib, mint, r')
  {
    var os := DecodeAll(lines[..i], siteID, lib);
    DecodeAllSnoc(lines, i, siteID, lib);
    var os' := os + [Success(d)];
    assert os'[..|os'| - 1] == os;
  }

  /** The per-line loop of Import. mint(j) is the value the j-th call of the
      session ID supplier returns. */
  method IngestLines(lines: seq<Line>, siteID: int, lib: Library, mint: nat -> Uint128) returns (r: Ingested)
    ensures Ingests(lines, siteID, lib, mint, r)
  {
    var hits: seq<Hit> := [];
    var n: nat := 0;
    var errs: seq<RowError> := [];
    var sessions: map<string, Uint128> := map[];
    var minted: nat := 0;
    var i := 0;
    NothingIngested(lines, siteID, lib, mint);
    while i < |lines|
      invariant 0 <= i <= |lines|
      invariant Ingests(lines[..i], siteID, lib, mint, Ingested(hits, n, errs, sessions, minted))
    {
      var line := lines[i];
      if line.Unreadable? {
        SkippedLineStep(lines, i, siteID, lib, mint, Ingested(hits, n, errs, sessions, minted), CsvError(line.msg));
        errs := errs + [CsvError(line.msg)];
      } else {
        var row, err := Read(EmptyRow, line.cells);
        if err.Some? {
          SkippedLineStep(lines, i, siteID, lib, mint, Ingested(hits, n, errs, sessions, minted), ShapeError(err.value));
          errs := errs + [ShapeError(err.value)];
        } else {
          FromCellsOfCells(row);
          match ToHit(row, siteID, lib)
          case Failure(e) =>
            SkippedLineStep(lines, i, siteID, lib, mint, Ingested(hits, n, errs, sessions, minted), HitRefused(e));
            errs := errs + [HitRefused(e)];
          case Success(hit) =>
            var d := Decoded(row.session, hit);
            assert DecodeLine(line, siteID, lib) == Success(d);
            ghost var g := Good(DecodeAll(lines[..i], siteID, lib));
            ghost var r0 := Ingested(hits, n, errs, sessions, minted);
            // A missing key reads as the zero session.
            var ok := row.session in sessions;
            var s: Uint128 := if ok then sessions[row.session] else 0;
            if !ok {
              NewTokenHolds(g, d, mint, r0);
              sessions := sessions[row.session := mint(minted)];
              minted := minted + 1;
            } else {
              KnownTokenHolds(g, d, mint, r0);
            }
            hits := hits + [hit.(session := s)];
            n := n + 1;
            DecodedLineStep(lines, i, siteID, lib, mint, r0, d, Ingested(hits, n, errs, sessions, minted));
        }
      }
      ghost var r' := Ingested(hits, n, errs, sessions, minted);
      assert Ingests(lines[..i + 1], siteID, lib, mint, r');
      i := i + 1;
      assert Ingests(lines[..i], siteID, lib, mint, r');
    }
    assert lines[..|lines|] == lines;
    r := Ingested(hits, n, errs, sessions, minted);
  }

  // ------------------------------------------------------------ import itself

  /** True when the first header cell carries the export version: it starts
      with the character '1', so the message about it has something to quote. */
  function PassesGate(header: seq<string>): (ok: bool)
    ensures ok <==> |header| > 0 && |header[0]| >= 1 && header[0][0] == '1'
    ensures ok ==> VersionSliceDefined(header)
  {
    |header| > 0 && HasPrefix(header[0], ExportVersion)
  }

  /** Whether header[0][:1], which the version message quotes, is defined. */
  predicate VersionSliceDefined(header: seq<string>)
  {
    |header| > 0 && |header[0]| >= 1
  }

  /** The version error message as the source builds it: it quotes the first
      byte of the first cell, and so needs one. Strings here are sequences of
      characters, so the quote is the first character, which is the first
      byte for an ASCII cell. */
  function VersionMessageAsWritten(header: seq<string>): (m: string)
    requires VersionSliceDefined(header)
    ensures HasPrefix(m, "wrong version of CSV database: ")
  {
    "wrong version of CSV database: " + header[0][..1] + " (expected: " + ExportVersion + ")"
  }

  /** The gate sends headers to the message that it cannot quote: a first
      cell that is empty, or no cell at all. */
  lemma VersionSliceUndefinedOnRejectedHeaders()
    ensures !PassesGate([""]) && !VersionSliceDefined([""])
    ensures !PassesGate([]) && !VersionSliceDefined([])
  {
  }

  /** The version error message, quoting as much of the first cell's first
      character (byte, in the source) as there is. */
  function VersionMessage(header: seq<string>): (m: string)
    ensures HasPrefix(m, "wrong version of CSV database: ")
    ensures VersionSliceDefined(header) ==> m == VersionMessageAsWritten(header)
  {
    var first := if |header| == 0 then "" else if |header[0]| == 0 then "" else header[0][..1];
    "wrong version of CSV database: " + first + " (expected: " + ExportVersion + ")"
  }

  /** The header export writes passes the gate. */
  lemma ExportHeaderPassesGate()
    ensures PassesGate(Header)
  {
    assert Header[0][..1] == ExportVersion;
  }

  datatype ImportFailure = HeaderUnreadable(msg: string) | WrongVersion(msg: string) | WipeFailed(msg: string)

  /** How an import ends: aborted before ingesting anything (and whether the
      wipe was attempted), or completed (and whether the site was wiped). */
  datatype ImportOutcome =
    | Aborted(failure: ImportFailure, wipeAttempted: bool)
    | Completed(wiped: bool, result: Ingested)

  /** Import. `header` and `lines` are what the CSV reader yields; `replace`
      asks for the wipe, and `deleteAll` is the error the wipe returns if it
      is called. */
  method Import(header: Line, lines: seq<Line>, replace: bool, deleteAll: Option<string>,
                siteID: int, lib: Library, mint: nat -> Uint128) returns (out: ImportOutcome)
    ensures header.Unreadable? ==> out == Aborted(HeaderUnreadable(header.msg), false)
    ensures header.Record? && !PassesGate(header.cells) ==>
              out == Aborted(WrongVersion(VersionMessage(header.cells)), false)
    ensures header.Record? && PassesGate(header.cells) && replace && deleteAll.Some? ==>
              out == Aborted(WipeFailed(deleteAll.value), true)
    ensures out.Completed? <==> header.Record? && PassesGate(header.cells) && !(replace && deleteAll.Some?)
    ensures out.Completed? ==> out.wiped == replace && Ingests(lines, siteID, lib, mint, out.result)
  {
    if header.Unreadable? {
      return Aborted(HeaderUnreadable(header.msg), false);
    }
    if !PassesGate(header.cells) {
      return Aborted(WrongVersion(VersionMessage(header.cells)), false);
    }
    if replace && deleteAll.Some? {
      return Aborted(WipeFailed(deleteAll.value), true);
    }
    var r := IngestLines(lines, siteID, lib, mint);
    out := Completed(replace, r);
  }

  // ------------------------------------------------------- remap properties

  /** Hits after the first one of a token all carry the ID minted for it. */
  lemma LaterHitsShareSession(ts: seq<string>, j: nat, k: nat, mint: nat -> Uint128)
    requires j < k < |ts| && ts[j] == ts[k] && ts[j] in ts[..j]
    ensures AssignedSession(ts, j, mint) == AssignedSession(ts, k, mint)
  {
    assert ts[..k][j] == ts[k];
  }

  /** The first hit of every token gets the zero session, not the ID minted
      for the token that the later hits get: a session is split in two
      whenever the supplier never hands out zero. */
  lemma FirstHitOfTokenGetsZero(ts: seq<string>, j: nat, k: nat, mint: nat -> Uint128)
    requires j < k < |ts| && ts[j] == ts[k] && ts[j] !in ts[..j]
    requires forall m :: mint(m) != 0
    ensures AssignedSession(ts, j, mint) == 0
    ensures AssignedSession(ts, k, mint) == mint(IndexOf(Distinct(ts), ts[k])) != 0
  {
    assert ts[..k][j] == ts[k];
  }

  /** With a supplier whose IDs for the distinct tokens are pairwise different,
      hits of different tokens never share a minted session. */
  lemma DifferentTokensApart(ts: seq<string>, j: nat, k: nat, mint: nat -> Uint128)
    requires j < |ts| && k < |ts| && ts[j] != ts[k]
    requires forall a: nat, b: nat :: a < |Distinct(ts)| && b < |Distinct(ts)| && mint(a) == mint(b) ==> a == b
    requires ts[j] in ts[..j] && ts[k] in ts[..k]
    ensures AssignedSession(ts, j, mint) != AssignedSession(ts, k, mint)
  {
    var d := Distinct(ts);
    assert d[IndexOf(d, ts[j])] != d[IndexOf(d, ts[k])];
  }

  // ----------------------------------------------------- export, then import

  /** The lines the CSV reader yields for rows written by export. */
  function Records(rows: seq<seq<string>>): (lines: seq<Line>)
    ensures |lines| == |rows|
  {
    seq(|rows|, i requires 0 <= i < |rows| => Record(rows[i]))
  }

  /** Importing the rows export wrote for valid hits refuses none of them and
      rebuilds every hit, in order, with the session token it was written with. */
  lemma ImportOfExport(hs: seq<Hit>, siteID: int, lib: Library)
    requires FaithfulForAll(lib, hs) && forall h :: h in hs ==> ValidHit(h)
    ensures var os := DecodeAll(Records(Rows(hs, lib)), siteID, lib);
      && Errors(os) == [] && |Good(os)| == |hs|
      && forall k :: 0 <= k < |hs| ==> Good(os)[k] == Decoded(SessionCell(hs[k]), Canonical(hs[k], siteID))
  {
    var os := DecodeAll(Records(Rows(hs, lib)), siteID, lib);
    forall k | 0 <= k < |hs|
      ensures os[k] == Success(Decoded(SessionCell(hs[k]), Canonical(hs[k], siteID)))
    {
      assert hs[k] in hs;
      RoundTrip(hs[k], siteID, lib);
      assert Records(Rows(hs, lib))[k] == Record(EncodeRow(hs[k], lib));
    }
    AllDecoded(os);
  }
}
