/** The lead table as it lies in the CSV file `dados_controle.csv`: the fixed
    seven-column header, the line that `salvar_cadastro` appends, and the
    records that `csv.DictReader` reads back from the file's lines.

    A line is the list of already-unquoted cells of one CSV record; a row is
    the dictionary DictReader builds from a line under the file's header. */
module Leads {

  datatype Option<T> = None | Some(value: T)

  type Line = seq<string>
  type Row = map<string, string>

  // Column names of the file, in the order salvar_cadastro writes them.
  const Nome := "Nome"
  const Telefone := "Telefone"
  const Email := "Email"
  const Faturamento := "Faturamento"
  const TipoEmpresa := "Tipo_Empresa"
  const DataCadastro := "Data_Cadastro"
  const StatusContato := "Status_Contato"

  const Header: Line := [Nome, Telefone, Email, Faturamento, TipoEmpresa, DataCadastro, StatusContato]

  /** The contact status every new lead starts with. */
  const Pending := "pendente"

  /** Python's `d.get(k, default)`. */
  function Get(d: map<string, string>, k: string, default: string): string {
    if k in d then d[k] else default
  }

  /** One lead submission: the request fields salvar_cadastro reads and the
      server's `datetime.now()` already formatted as `dd/mm/yyyy HH:MM:SS`. */
  datatype Submission = Submission(data: map<string, string>, now: string)

  /** The line salvar_cadastro appends for a submission: the five request
      fields (missing ones as ''), the timestamp and the status 'pendente'. */
  function NewLine(s: Submission): (l: Line)
    ensures |l| == |Header|
  {
    [Get(s.data, "nome", ""), Get(s.data, "telefone", ""), Get(s.data, "email", ""),
     Get(s.data, "faturamento", ""), Get(s.data, "tipo_empresa", ""), s.now, Pending]
  }

  /** The row a submission is read back as from a file with the fixed header. */
  function NewRow(s: Submission): Row {
    Zip(Header, NewLine(s))
  }

  /** A row carrying exactly the seven columns of the fixed header. */
  predicate Canonical(r: Row) {
    (forall k :: k in r ==> k in Header) && (forall k :: k in Header ==> k in r)
  }

  /** `dict(zip(header, cells))` as DictReader builds it: a later repeat of a
      column name wins over an earlier one; cells beyond the header are
      dropped, and header names beyond the last cell stay absent. */
  function Zip(header: Line, cells: Line): (r: Row)
    ensures forall k :: k in r ==> k in header
    decreases |header|
  {
    if header == [] || cells == [] then map[]
    else
      var rest := Zip(header[1..], cells[1..]);
      if header[0] in rest then rest else rest[header[0] := cells[0]]
  }

  /** The records DictReader yields for the lines after the header: every
      line except an empty one becomes a row, in file order. */
  function Records(header: Line, body: seq<Line>): (rows: seq<Row>)
    ensures |rows| <= |body|
  {
    if body == [] then []
    else
      var last := body[|body| - 1];
      Records(header, body[..|body| - 1]) + (if last == [] then [] else [Zip(header, last)])
  }

  /** What ler_cadastros returns for the file: nothing when the file does not
      exist (or holds no record at all), else the records under its first line. */
  function Table(present: bool, lines: seq<Line>): (rows: seq<Row>)
    ensures !present ==> rows == []
    ensures |rows| <= if lines == [] then 0 else |lines| - 1
  {
    if !present || lines == [] then [] else Records(lines[0], lines[1..])
  }

  /** The file after salvar_cadastro appends `line`: the header is written
      first only when the file did not exist. */
  function Appended(present: bool, lines: seq<Line>, line: Line): (out: seq<Line>)
    ensures out != [] && out[|out| - 1] == line
    ensures present ==> out[..|out| - 1] == lines
    ensures !present ==> out == [Header, line]
  {
    (if present then lines else [Header]) + [line]
  }

  /** One line per submission, in order. */
  function SubmittedLines(subs: seq<Submission>): seq<Line> {
    seq(|subs|, i requires 0 <= i < |subs| => NewLine(subs[i]))
  }

  /** One row per submission, in order. */
  function SubmittedRows(subs: seq<Submission>): seq<Row> {
    seq(|subs|, i requires 0 <= i < |subs| => NewRow(subs[i]))
  }

  /** The file after a sequence of submissions, starting with no file. */
  function FreshFile(subs: seq<Submission>): seq<Line> {
    if subs == [] then []
    else Appended(|subs| > 1, FreshFile(subs[..|subs| - 1]), NewLine(subs[|subs| - 1]))
  }

  /** Under a header without repeated names, a line with a cell for every
      column maps each column name to its own cell and to nothing else. */
  lemma {:induction false} ZipDistinct(header: Line, cells: Line)
    requires |cells| >= |header|
    requires forall i, j :: 0 <= i < j < |header| ==> header[i] != header[j]
    ensures forall k :: k in Zip(header, cells) <==> k in header
    ensures forall i :: 0 <= i < |header| ==> Zip(header, cells)[header[i]] == cells[i]
  {
    if header != [] {
      var h', c' := header[1..], cells[1..];
      ZipDistinct(h', c');
      assert forall i :: 1 <= i < |header| ==> header[i] == h'[i - 1] && cells[i] == c'[i - 1];
      assert header[0] !in h';
    }
  }

  /** The seven column names of the fixed header are pairwise distinct. */
  lemma HeaderDistinct()
    ensures forall i, j :: 0 <= i < j < |Header| ==> Header[i] != Header[j]
  {
  }

  /** DictReader reads a seven-cell line under the fixed header as a row
      with exactly the seven columns, each holding its own cell. */
  lemma HeaderRead(l: Line)
    requires |l| == |Header|
    ensures Canonical(Zip(Header, l))
    ensures forall i :: 0 <= i < |Header| ==> Zip(Header, l)[Header[i]] == l[i]
  {
    HeaderDistinct();
    ZipDistinct(Header, l);
  }

  /** When no line is empty, every line becomes exactly one row, in order. */
  lemma {:induction false} RecordsOfNonEmptyLines(header: Line, body: seq<Line>)
    requires forall j :: 0 <= j < |body| ==> body[j] != []
    ensures |Records(header, body)| == |body|
    ensures forall j :: 0 <= j < |body| ==> Records(header, body)[j] == Zip(header, body[j])
  {
    if body != [] {
      RecordsOfNonEmptyLines(header, body[..|body| - 1]);
    }
  }

  /** Appending a line to a file reads back as the old rows plus the new one:
      under the fixed header when the file was created by this append, under
      the file's own first line otherwise; and not at all when the file was
      empty, since the appended line then becomes the header. */
  lemma AppendedTable(present: bool, lines: seq<Line>, s: Submission)
    requires !present ==> lines == []
    ensures Table(true, Appended(present, lines, NewLine(s))) ==
            if !present then [NewRow(s)]
            else if lines == [] then []
            else Table(present, lines) + [Zip(lines[0], NewLine(s))]
  {
    var out := Appended(present, lines, NewLine(s));
    if !present {
      assert out == [Header, NewLine(s)];
      assert out[1..] == [NewLine(s)];
      assert out[1..][..0] == [];
    } else if lines != [] {
      assert out[1..] == lines[1..] + [NewLine(s)];
      assert out[1..][..|out[1..]| - 1] == lines[1..];
    }
  }

  /** A file built only by appends holds exactly one header, first, followed
      by one line per submission in submission order. */
  lemma {:induction false} FreshFileShape(subs: seq<Submission>)
    requires subs != []
    ensures FreshFile(subs) == [Header] + SubmittedLines(subs)
  {
    var n := |subs|;
    if n > 1 {
      var init := subs[..n - 1];
      FreshFileShape(init);
      assert SubmittedLines(subs) == SubmittedLines(init) + [NewLine(subs[n - 1])];
    }
  }

  /** Round trip: appending submissions to a missing file and reading it back
      yields one row per submission, in order, each holding every field. */
  lemma FreshFileTable(subs: seq<Submission>)
    ensures Table(subs != [], FreshFile(subs)) == SubmittedRows(subs)
  {
    if subs != [] {
      FreshFileShape(subs);
      var body := SubmittedLines(subs);
      assert FreshFile(subs)[0] == Header && FreshFile(subs)[1..] == body;
      RecordsOfNonEmptyLines(Header, body);
      var rows, want := Records(Header, body), SubmittedRows(subs);
      assert |rows| == |want|;
      forall i | 0 <= i < |subs| ensures rows[i] == want[i] {
        assert body[i] == NewLine(subs[i]);
      }
    }
  }

  /** A row read back from a file whose first line is the fixed header has
      no column outside it. */
  lemma {:induction false} FixedHeaderKeys(body: seq<Line>)
    ensures forall j, k :: 0 <= j < |Records(Header, body)| && k in Records(Header, body)[j] ==> k in Header
  {
    if body != [] {
      FixedHeaderKeys(body[..|body| - 1]);
    }
  }

  /** The columns of a submission's row hold what salvar_cadastro wrote. */
  lemma NewRowFields(s: Submission)
    ensures Canonical(NewRow(s))
    ensures NewRow(s)[Nome] == Get(s.data, "nome", "")
    ensures NewRow(s)[Telefone] == Get(s.data, "telefone", "")
    ensures NewRow(s)[Email] == Get(s.data, "email", "")
    ensures NewRow(s)[Faturamento] == Get(s.data, "faturamento", "")
    ensures NewRow(s)[TipoEmpresa] == Get(s.data, "tipo_empresa", "")
    ensures NewRow(s)[DataCadastro] == s.now
    ensures NewRow(s)[StatusContato] == Pending
  {
    HeaderRead(NewLine(s));
    var r := NewRow(s);
    assert r[Header[0]] == Get(s.data, "nome", "") && r[Header[1]] == Get(s.data, "telefone", "");
    assert r[Header[2]] == Get(s.data, "email", "") && r[Header[3]] == Get(s.data, "faturamento", "");
    assert r[Header[4]] == Get(s.data, "tipo_empresa", "") && r[Header[5]] == s.now;
    assert r[Header[6]] == Pending;
  }

  /** On a file that starts with the fixed header, an append adds exactly
      one row, the submission's, after the unchanged old rows. */
  lemma AppendToLeadFile(lines: seq<Line>, s: Submission)
    requires lines != [] && lines[0] == Header
    ensures Table(true, Appended(true, lines, NewLine(s))) == Table(true, lines) + [NewRow(s)]
  {
    AppendedTable(true, lines, s);
  }
}
