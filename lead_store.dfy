/** The lead file as a store: `salvar_cadastro` appends a line,
    `ler_cadastros` reads the rows back, and `marcar_contato` sets the contact
    status of the first row with a given e-mail and rewrites the whole file
    with `csv.DictWriter`. */
module LeadStore {
  import opened Leads

  /** What marcar_contato answers: `{'success': True}`, the 'Email não
      fornecido' failure, or the failure raised by DictWriter when a row holds
      a column outside the fixed header. */
  datatype Reply = Ok | MissingEmail | ForeignField

  /** `item.get('Email') == email` for a non-empty e-mail: a row without
      `Email` reads as None there and never matches. */
  predicate Matches(r: Row, email: string)
    ensures Email !in r ==> !Matches(r, email)
    ensures email != "" ==> (Matches(r, email) <==> Get(r, Email, "") == email)
  {
    Email in r && r[Email] == email
  }

  /** Index of the first row whose e-mail is `email`, or |rows| when none is. */
  function FirstMatch(rows: seq<Row>, email: string): (i: nat)
    ensures i <= |rows|
    ensures forall j :: 0 <= j < i ==> !Matches(rows[j], email)
    ensures i < |rows| ==> Matches(rows[i], email)
  {
    if rows == [] then 0
    else if Matches(rows[0], email) then 0
    else 1 + FirstMatch(rows[1..], email)
  }

  /** The rows after marcar_contato's first loop: the first row whose e-mail
      is `email` gets `status`; the scan stops there, so no other row
      changes, and no row changes when none matches. */
  function SetFirstStatus(rows: seq<Row>, email: string, status: string): (u: seq<Row>)
    ensures |u| == |rows|
    // A convenience clause; it follows from the two below with FirstMatch's.
    ensures forall j :: 0 <= j < |rows| ==>
              u[j] == rows[j] || (Matches(rows[j], email) && u[j] == rows[j][StatusContato := status])
    ensures forall j :: 0 <= j < |rows| && j != FirstMatch(rows, email) ==> u[j] == rows[j]
    ensures FirstMatch(rows, email) < |rows| ==>
              u[FirstMatch(rows, email)] == rows[FirstMatch(rows, email)][StatusContato := status]
  {
    var i := FirstMatch(rows, email);
    if i < |rows| then rows[i := rows[i][StatusContato := status]] else rows
  }

  /** The value stored for the request's `status`: an absent status is
      Python's None, which the CSV writer writes as ''. */
  function StatusCell(status: Option<string>): (cell: string)
    ensures status.None? ==> cell == ""
    ensures status.Some? ==> cell == status.value
  {
    match status
    case None => ""
    case Some(s) => s
  }

  /** The second loop's back-fill of a missing status. */
  function Backfill(r: Row): (b: Row)
    ensures b.Keys == r.Keys + {StatusContato}
    ensures forall k :: k in r ==> b[k] == r[k]
    ensures StatusContato !in r ==> b[StatusContato] == Pending
  {
    if StatusContato in r then r else r[StatusContato := Pending]
  }

  /** A row DictWriter accepts: no column outside the fixed header. */
  predicate KnownFields(r: Row)
    ensures Canonical(r) ==> KnownFields(r)
  {
    forall k :: k in r ==> k in Header
  }

  /** DictWriter accepts a row exactly when its keys are among the seven
      fieldnames. */
  lemma KnownFieldsKeys(r: Row)
    ensures KnownFields(r) <==> r.Keys <= set i | 0 <= i < |Header| :: Header[i]
  {
    var names := set i | 0 <= i < |Header| :: Header[i];
    if KnownFields(r) {
      forall k | k in r ensures k in names {
        var i :| 0 <= i < |Header| && Header[i] == k;
      }
    }
  }

  /** Index of the first row DictWriter refuses, or |rows| when it refuses none. */
  function FirstForeign(rows: seq<Row>): (i: nat)
    ensures i <= |rows|
    ensures forall j :: 0 <= j < i ==> KnownFields(Backfill(rows[j]))
    ensures i < |rows| ==> !KnownFields(Backfill(rows[i]))
  {
    if rows == [] then 0
    else if !KnownFields(Backfill(rows[0])) then 0
    else 1 + FirstForeign(rows[1..])
  }

  /** The line DictWriter writes for a row: its value for each header
      column, '' where the row has none. */
  function Cells(r: Row): (l: Line)
    ensures |l| == |Header|
  {
    seq(|Header|, i requires 0 <= i < |Header| => Get(r, Header[i], ""))
  }

  function WrittenLines(rows: seq<Row>): seq<Line> {
    seq(|rows|, j requires 0 <= j < |rows| => Cells(Backfill(rows[j])))
  }

  /** The file after the rewrite: the header, then the back-filled rows up to
      (not including) the first one DictWriter refuses. */
  function Rewritten(rows: seq<Row>): (out: seq<Line>)
    ensures |out| == FirstForeign(rows) + 1 && out[0] == Header
    ensures forall j :: 0 <= j < |out| ==> |out[j]| == |Header|
  {
    [Header] + WrittenLines(rows[..FirstForeign(rows)])
  }

  /** The row a rewritten line reads back as. */
  function Normalize(r: Row): Row {
    Zip(Header, Cells(Backfill(r)))
  }

  /** marcar_contato's answer and the file afterwards. */
  function Marked(present: bool, lines: seq<Line>, email: Option<string>, status: Option<string>): (m: (Reply, seq<Line>))
    ensures m.0 == MissingEmail <==> email.None? || email.value == ""
    ensures m.0 == MissingEmail ==> m.1 == lines
    ensures m.1 == lines || (m.1 != [] && m.1[0] == Header)
    ensures m.0 == ForeignField ==> Table(present, lines) != [] && |m.1| <= |Table(present, lines)|
  {
    if email.None? || email.value == "" then (MissingEmail, lines)
    else
      var rows := SetFirstStatus(Table(present, lines), email.value, StatusCell(status));
      if rows == [] then (Ok, lines)
      else if FirstForeign(rows) == |rows| then (Ok, Rewritten(rows))
      else (ForeignField, Rewritten(rows))
  }

  class LeadFile {
    /** Whether `dados_controle.csv` exists. */
    var present: bool
    /** Its CSV records, header line included. */
    var lines: seq<Line>

    ghost predicate Valid()
      reads this
    {
      !present ==> lines == []
    }

    /** No file yet. */
    constructor Missing()
      ensures Valid() && !present && lines == []
    {
      present, lines := false, [];
    }

    /** A file already on disk, with any content. */
    constructor Existing(content: seq<Line>)
      ensures Valid() && present && lines == content
    {
      present, lines := true, content;
    }

    /** salvar_cadastro: writes the header if the file does not exist yet,
        then appends the submission's line. */
    method Append(data: map<string, string>, now: string) returns (ok: bool)
      requires Valid()
      modifies this
      ensures Valid() && present && ok
      ensures lines == Appended(old(present), old(lines), NewLine(Submission(data, now)))
    {
      if !present {
        present := true;
        lines := [Header];
      }
      lines := lines + [NewLine(Submission(data, now))];
      ok := true;
    }

    /** ler_cadastros: the rows of the file in order, [] when there is no file. */
    method ReadAll() returns (rows: seq<Row>)
      ensures rows == Table(present, lines)
    {
      rows := [];
      if !present || lines == [] {
        return;
      }
      var header := lines[0];
      var i := 1;
      while i < |lines|
        invariant 1 <= i <= |lines|
        invariant rows == Records(header, lines[1..i])
      {
        assert lines[1..i + 1][..i - 1] == lines[1..i];
        if lines[i] != [] {
          rows := rows + [Zip(header, lines[i])];
        }
        i := i + 1;
      }
      assert lines[1..i] == lines[1..];
    }

    /** marcar_contato: rejects a missing or empty e-mail; otherwise sets the
        status on the first row with that e-mail and, when the file holds any
        row, rewrites it through DictWriter. */
    method MarkContact(email: Option<string>, status: Option<string>) returns (r: Reply)
      requires Valid()
      modifies this
      ensures Valid() && present == old(present)
      ensures (r, lines) == Marked(old(present), old(lines), email, status)
    {
      if email.None? || email.value == "" {
        return MissingEmail;
      }
      var rows := ReadAll();
      rows := SetStatusOfFirst(rows, email.value, StatusCell(status));
      r := Ok;
      if |rows| > 0 {
        var ok, out := RewriteRows(rows);
        lines := out;
        if !ok {
          r := ForeignField;
        }
      }
    }
  }

  /** marcar_contato's first loop: scan in order, set the status on the
      first row whose e-mail matches, and stop there. */
  method SetStatusOfFirst(rows: seq<Row>, email: string, status: string) returns (updated: seq<Row>)
    ensures updated == SetFirstStatus(rows, email, status)
  {
    updated := rows;
    var i := 0;
    while i < |updated|
      invariant 0 <= i <= |updated|
      invariant updated == rows
      invariant forall j :: 0 <= j < i ==> !Matches(rows[j], email)
    {
      if Matches(updated[i], email) {
        FirstMatchIs(rows, email, i);
        updated := updated[i := updated[i][StatusContato := status]];
        break;
      }
      i := i + 1;
    }
    if i == |rows| {
      FirstMatchIs(rows, email, i);
    }
  }

  /** marcar_contato's second loop: write the header, then each row with a
      missing status back-filled; DictWriter stops at the first row with a
      column outside the header, after the lines before it were written. */
  method RewriteRows(rows: seq<Row>) returns (ok: bool, out: seq<Line>)
    ensures out == Rewritten(rows)
    ensures ok <==> FirstForeign(rows) == |rows|
  {
    out := [Header];
    var k := 0;
    while k < |rows|
      invariant 0 <= k <= |rows|
      invariant forall j :: 0 <= j < k ==> KnownFields(Backfill(rows[j]))
      invariant out == [Header] + WrittenLines(rows[..k])
    {
      var item := rows[k];
      if StatusContato !in item {
        item := item[StatusContato := Pending];
      }
      if !KnownFields(item) {
        FirstForeignIs(rows, k);
        return false, out;
      }
      WrittenLinesSnoc(rows, k);
      out := out + [Cells(item)];
      k := k + 1;
    }
    FirstForeignIs(rows, k);
    assert rows[..k] == rows;
    ok := true;
  }

  lemma FirstMatchIs(rows: seq<Row>, email: string, i: nat)
    requires i <= |rows|
    requires forall j :: 0 <= j < i ==> !Matches(rows[j], email)
    requires i < |rows| ==> Matches(rows[i], email)
    ensures FirstMatch(rows, email) == i
  {
  }

  lemma FirstForeignIs(rows: seq<Row>, i: nat)
    requires i <= |rows|
    requires forall j :: 0 <= j < i ==> KnownFields(Backfill(rows[j]))
    requires i < |rows| ==> !KnownFields(Backfill(rows[i]))
    ensures FirstForeign(rows) == i
  {
  }

  lemma WrittenLinesSnoc(rows: seq<Row>, k: nat)
    requires k < |rows|
    ensures WrittenLines(rows[..k + 1]) == WrittenLines(rows[..k]) + [Cells(Backfill(rows[k]))]
  {
  }

  /** A rewritten line reads back with all seven columns: the row's own
      value where it has one, 'pendente' for a missing status, '' for any
      other missing column. */
  lemma NormalizeFields(r: Row)
    ensures Canonical(Normalize(r))
    ensures forall i :: 0 <= i < |Header| ==>
              Normalize(r)[Header[i]] == if Header[i] in r then r[Header[i]]
                                         else if Header[i] == StatusContato then Pending
                                         else ""
  {
    HeaderRead(Cells(Backfill(r)));
  }

  /** A row that already has exactly the seven columns survives the rewrite
      unchanged. */
  lemma NormalizeCanonical(r: Row)
    requires Canonical(r)
    ensures Normalize(r) == r
  {
    var n := Normalize(r);
    NormalizeFields(r);
    assert n.Keys == r.Keys;
    forall k | k in r ensures n[k] == r[k] {
      assert k in Header;
      var i :| 0 <= i < |Header| && Header[i] == k;
    }
  }

  /** Reading the rewritten file back gives the normalized rows that were
      written, which are all of them unless DictWriter refused one. */
  lemma RewrittenTable(rows: seq<Row>)
    ensures Table(true, Rewritten(rows)) ==
            seq(FirstForeign(rows), j requires 0 <= j < FirstForeign(rows) => Normalize(rows[j]))
  {
    var n := FirstForeign(rows);
    var body := WrittenLines(rows[..n]);
    var want := seq(n, j requires 0 <= j < n => Normalize(rows[j]));
    assert Rewritten(rows)[1..] == body;
    RecordsOfNonEmptyLines(Header, body);
    var got := Records(Header, body);
    assert |got| == |want|;
    forall j | 0 <= j < n ensures got[j] == want[j] {
      assert body[j] == Cells(Backfill(rows[j]));
    }
  }

  /** The status update keeps every row's DictWriter acceptability: it only
      sets a column of the fixed header. */
  lemma SetFirstStatusKnown(rows: seq<Row>, email: string, status: string)
    ensures |SetFirstStatus(rows, email, status)| == |rows|
    ensures forall j :: 0 <= j < |rows| ==>
              (KnownFields(Backfill(SetFirstStatus(rows, email, status)[j])) <==> KnownFields(rows[j]))
  {
  }

  /** marcar_contato with a non-empty e-mail on a file that holds rows
      rewrites it: it succeeds exactly when no row holds a column outside
      the fixed header, and the file then reads back as the updated rows,
      normalized, as far as DictWriter got. */
  lemma MarkRewrite(present: bool, lines: seq<Line>, e: string, status: Option<string>)
    requires e != ""
    requires Table(present, lines) != []
    ensures var t := Table(present, lines);
            var u := SetFirstStatus(t, e, StatusCell(status));
            var m := Marked(present, lines, Some(e), status);
            && |u| == |t|
            && (m.0 == Ok <==> forall j :: 0 <= j < |t| ==> KnownFields(t[j]))
            && (m.0 != MissingEmail)
            && Table(true, m.1) == seq(FirstForeign(u), j requires 0 <= j < FirstForeign(u) => Normalize(u[j]))
  {
    var t := Table(present, lines);
    var u := SetFirstStatus(t, e, StatusCell(status));
    SetFirstStatusKnown(t, e, StatusCell(status));
    RewrittenTable(u);
  }

  /** The first-match-only property: on a file whose rows carry the seven
      columns, a non-empty e-mail changes the status of the first row with
      that e-mail and nothing else, even when later rows share the e-mail;
      the row count and order stay. */
  lemma MarkFirstMatchOnly(present: bool, lines: seq<Line>, e: string, status: Option<string>)
    requires e != ""
    requires forall j :: 0 <= j < |Table(present, lines)| ==> Canonical(Table(present, lines)[j])
    ensures var t := Table(present, lines);
            var m := Marked(present, lines, Some(e), status);
            var t' := Table(present, m.1);
            var i := FirstMatch(t, e);
            && m.0 == Ok
            && |t'| == |t|
            && (forall j :: 0 <= j < |t| && j != i ==> t'[j] == t[j])
            && (i < |t| ==> t'[i] == t[i][StatusContato := StatusCell(status)])
  {
    var t := Table(present, lines);
    if t != [] {
      CanonicalMarkTable(present, lines, e, status);
    }
  }

  /** On rows that carry the seven columns, the rewrite writes every updated
      row back as it is. */
  lemma CanonicalMarkTable(present: bool, lines: seq<Line>, e: string, status: Option<string>)
    requires e != ""
    requires Table(present, lines) != []
    requires forall j :: 0 <= j < |Table(present, lines)| ==> Canonical(Table(present, lines)[j])
    ensures var m := Marked(present, lines, Some(e), status);
            m.0 == Ok && Table(true, m.1) == SetFirstStatus(Table(present, lines), e, StatusCell(status))
  {
    var t := Table(present, lines);
    var u := SetFirstStatus(t, e, StatusCell(status));
    MarkRewrite(present, lines, e, status);
    forall j | 0 <= j < |t| ensures KnownFields(t[j]) {
      assert forall k :: k in t[j] ==> k in Header;
    }
    forall j | 0 <= j < |u| ensures Normalize(u[j]) == u[j] {
      assert Canonical(u[j]);
      NormalizeCanonical(u[j]);
    }
  }

  /** `r'` is what a rewrite makes of `r`: all seven columns, each value
      `r` had kept, 'pendente' for a missing status, '' for any other
      missing column. */
  predicate RewrittenFrom(r': Row, r: Row) {
    && Canonical(r')
    && (forall k :: k in r ==> k in r' && r'[k] == r[k])
    && (StatusContato !in r ==> r'[StatusContato] == Pending)
    && (forall i :: 0 <= i < |Header| && Header[i] !in r && Header[i] != StatusContato ==> r'[Header[i]] == "")
  }

  lemma NormalizeRewrites(r: Row)
    requires KnownFields(r)
    ensures RewrittenFrom(Normalize(r), r)
  {
    var n := Normalize(r);
    NormalizeFields(r);
    forall k | k in r ensures k in n && n[k] == r[k] {
      assert k in Header;
      var i :| 0 <= i < |Header| && Header[i] == k;
    }
    assert Header[6] == StatusContato;
  }

  /** An e-mail that matches no row still succeeds on a file without foreign
      columns. It leaves the file alone when it holds no row; otherwise it
      adds and removes no row and each row is only rewritten (RewrittenFrom):
      no value it had changes. */
  lemma MarkNoMatch(present: bool, lines: seq<Line>, e: string, status: Option<string>)
    requires e != ""
    requires forall j :: 0 <= j < |Table(present, lines)| ==> !Matches(Table(present, lines)[j], e)
    requires forall j :: 0 <= j < |Table(present, lines)| ==> KnownFields(Table(present, lines)[j])
    ensures var t := Table(present, lines);
            var m := Marked(present, lines, Some(e), status);
            var t' := Table(true, m.1);
            && m.0 == Ok
            && (t == [] ==> m.1 == lines)
            && (t != [] ==> |t'| == |t| && forall j :: 0 <= j < |t| ==> RewrittenFrom(t'[j], t[j]))
  {
    var t := Table(present, lines);
    if t != [] {
      MarkRewrite(present, lines, e, status);
      assert FirstMatch(t, e) == |t|;
      forall j | 0 <= j < |t| ensures RewrittenFrom(Normalize(t[j]), t[j]) {
        NormalizeRewrites(t[j]);
      }
    }
  }

  /** The first-match-only property on any file without foreign columns,
      such as one whose header names only some of the seven columns: the
      first row with the e-mail gets the new status, and every row, that one
      and later ones with the same e-mail included, is otherwise only
      completed by the rewrite. */
  lemma MarkFirstMatchGeneral(present: bool, lines: seq<Line>, e: string, status: Option<string>)
    requires e != ""
    requires Table(present, lines) != []
    requires forall j :: 0 <= j < |Table(present, lines)| ==> KnownFields(Table(present, lines)[j])
    ensures var t := Table(present, lines);
            var m := Marked(present, lines, Some(e), status);
            var t' := Table(true, m.1);
            var i := FirstMatch(t, e);
            && m.0 == Ok
            && |t'| == |t|
            && (forall j :: 0 <= j < |t| && j != i ==> RewrittenFrom(t'[j], t[j]))
            && (i < |t| ==> RewrittenFrom(t'[i], t[i][StatusContato := StatusCell(status)]))
  {
    var t := Table(present, lines);
    var st := StatusCell(status);
    var u := SetFirstStatus(t, e, st);
    var i := FirstMatch(t, e);
    assert u == if i < |t| then t[i := t[i][StatusContato := st]] else t;
    MarkRewrite(present, lines, e, status);
    SetFirstStatusKnown(t, e, st);
    forall j | 0 <= j < |u| ensures RewrittenFrom(Normalize(u[j]), u[j]) {
      NormalizeRewrites(u[j]);
    }
  }

  /** A file whose first line is the fixed header never makes the rewrite
      fail, so marcar_contato with a non-empty e-mail always succeeds on it. */
  lemma FixedHeaderMarkSucceeds(lines: seq<Line>, e: string, status: Option<string>)
    requires lines != [] && lines[0] == Header
    requires e != ""
    ensures Marked(true, lines, Some(e), status).0 == Ok
  {
    var t := Table(true, lines);
    FixedHeaderKeys(lines[1..]);
    if t != [] {
      MarkRewrite(true, lines, e, status);
    }
  }

  /** The duplicate-e-mail case: two leads submitted with the same e-mail
      into a new file, then marked: only the first lead's status changes. */
  lemma DuplicateEmailMarksFirst(a: Submission, b: Submission, status: Option<string>)
    requires Get(a.data, "email", "") == "dup@x.com" && Get(b.data, "email", "") == "dup@x.com"
    ensures var m := Marked(true, FreshFile([a, b]), Some("dup@x.com"), status);
            && m.0 == Ok
            && Table(true, m.1) == [NewRow(a)[StatusContato := StatusCell(status)], NewRow(b)]
  {
    var e := "dup@x.com";
    var lines := FreshFile([a, b]);
    var t := TwoLeadsTable(a, b);
    NewRowFields(a);
    assert Matches(t[0], e);
    CanonicalMarkTable(true, lines, e, status);
    assert t[1..] == [NewRow(b)];
  }

  /** Two submissions into a new file read back as their two rows. */
  lemma TwoLeadsTable(a: Submission, b: Submission) returns (t: seq<Row>)
    ensures t == Table(true, FreshFile([a, b])) && t == [NewRow(a), NewRow(b)]
    ensures forall j :: 0 <= j < |t| ==> Canonical(t[j])
  {
    FreshFileTable([a, b]);
    t := Table(true, FreshFile([a, b]));
    assert SubmittedRows([a, b]) == [NewRow(a), NewRow(b)];
    forall j | 0 <= j < |t| ensures Canonical(t[j]) {
      NewRowFields(if j == 0 then a else b);
    }
  }

  /** Whatever the rewrite got to write reads back with a status on every row. */
  lemma RewriteHasStatus(present: bool, lines: seq<Line>, e: string, status: Option<string>)
    requires e != ""
    requires Table(present, lines) != []
    ensures var t' := Table(true, Marked(present, lines, Some(e), status).1);
            forall j :: 0 <= j < |t'| ==> StatusContato in t'[j]
  {
    MarkRewrite(present, lines, e, status);
    var u := SetFirstStatus(Table(present, lines), e, StatusCell(status));
    forall j | 0 <= j < FirstForeign(u) ensures StatusContato in Normalize(u[j]) {
      NormalizeFields(u[j]);
    }
  }

  /** When the first row holds a column outside the fixed header (a file
      whose header line is not the fixed one), marcar_contato fails after
      truncating the file to the bare header: every lead is gone from it. */
  lemma ForeignFirstRowEmptiesFile(present: bool, lines: seq<Line>, e: string, status: Option<string>)
    requires e != ""
    requires Table(present, lines) != [] && !KnownFields(Table(present, lines)[0])
    ensures var m := Marked(present, lines, Some(e), status);
            m == (ForeignField, [Header]) && Table(true, m.1) == []
  {
    var t := Table(present, lines);
    var u := SetFirstStatus(t, e, StatusCell(status));
    MarkRewrite(present, lines, e, status);
    SetFirstStatusKnown(t, e, StatusCell(status));
    assert FirstForeign(u) == 0;
    assert Rewritten(u) == [Header];
  }
}
