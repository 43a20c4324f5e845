/** The administrative endpoints over the lead table: the login check, the
    listing of `/admin/dados` and the counts of `/admin/estatisticas`. */
module Admin {
  import opened Leads
  import LeadStore

  /** The one credential pair `/admin/login` accepts. */
  const AdminUser := "Elfem/154"
  const AdminPassword := "5567E"

  /** admin_login: the request's `usuario` and `senha` (absent ones read as
      '') must both equal the fixed pair. */
  function Login(usuario: Option<string>, senha: Option<string>): (ok: bool)
    ensures ok <==> usuario == Some(AdminUser) && senha == Some(AdminPassword)
  {
    var u := if usuario.Some? then usuario.value else "";
    var p := if senha.Some? then senha.value else "";
    u == AdminUser && p == AdminPassword
  }

  // ---------------------------------------------------------------------
  // Listing

  /** One entry of `dados` in the `/admin/dados` answer. */
  datatype Listed = Listed(
    registeredAt: string,   // Data_Cadastro
    name: string,           // Nome
    phone: string,          // Telefone
    email: string,          // Email
    revenue: string,        // Faturamento
    companyType: string,    // Tipo_Empresa
    contactStatus: string)  // Status_Contato

  /** The entry admin_dados builds for a row, with its per-column defaults. */
  function Display(r: Row): (d: Listed)
    ensures d.registeredAt == (if DataCadastro in r then r[DataCadastro] else "")
    ensures d.name == (if Nome in r then r[Nome] else "")
    ensures d.phone == (if Telefone in r then r[Telefone] else "")
    ensures d.email == (if Email in r then r[Email] else "")
    ensures d.revenue == (if Faturamento in r then r[Faturamento] else "0")
    ensures d.companyType == (if TipoEmpresa in r then r[TipoEmpresa] else "")
    ensures d.contactStatus == (if StatusContato in r then r[StatusContato] else Pending)
    ensures Canonical(r) ==> d == Listed(r[DataCadastro], r[Nome], r[Telefone], r[Email],
                                         r[Faturamento], r[TipoEmpresa], r[StatusContato])
  {
    Listed(Get(r, DataCadastro, ""), Get(r, Nome, ""), Get(r, Telefone, ""), Get(r, Email, ""),
           Get(r, Faturamento, "0"), Get(r, TipoEmpresa, ""), Get(r, StatusContato, Pending))
  }

  /** admin_dados: one entry per stored row, in the same order, and the count. */
  method AdminData(store: LeadStore.LeadFile) returns (dados: seq<Listed>, total: nat)
    ensures var rows := Table(store.present, store.lines);
            && |dados| == |rows| && total == |rows|
            && forall j :: 0 <= j < |rows| ==> dados[j] == Display(rows[j])
  {
    var rows := store.ReadAll();
    dados := [];
    for i := 0 to |rows|
      invariant |dados| == i
      invariant forall j :: 0 <= j < i ==> dados[j] == Display(rows[j])
    {
      dados := dados + [Display(rows[i])];
    }
    total := |dados|;
  }

  /** A submitted lead is listed with the values it was submitted with:
      its timestamp, the five request fields ('' where absent) and the
      status 'pendente'. An absent revenue would list as '' and not as '0',
      but that needs a call of salvar_cadastro without `faturamento`, and
      calcular always passes it (app.py:95-102). */
  lemma DisplayNewRow(s: Submission)
    ensures Display(NewRow(s)) ==
            Listed(s.now, Get(s.data, "nome", ""), Get(s.data, "telefone", ""), Get(s.data, "email", ""),
                   Get(s.data, "faturamento", ""), Get(s.data, "tipo_empresa", ""), Pending)
  {
    NewRowFields(s);
  }

  /** Listing a file built by appends shows every submission, in order. */
  lemma ListingOfFreshFile(subs: seq<Submission>)
    ensures var rows := Table(subs != [], FreshFile(subs));
            && |rows| == |subs|
            && (forall j :: 0 <= j < |subs| ==>
                  && Display(rows[j]).email == Get(subs[j].data, "email", "")
                  && Display(rows[j]).registeredAt == subs[j].now
                  && Display(rows[j]).contactStatus == Pending)
  {
    FreshFileTable(subs);
    forall j | 0 <= j < |subs|
      ensures Display(NewRow(subs[j])).email == Get(subs[j].data, "email", "")
      ensures Display(NewRow(subs[j])).registeredAt == subs[j].now
      ensures Display(NewRow(subs[j])).contactStatus == Pending
    {
      DisplayNewRow(subs[j]);
    }
  }

  // ---------------------------------------------------------------------
  // Statistics

  /** `cadastro.get('Email', '')` and `cadastro.get('Data_Cadastro', '')`. */
  function EmailOf(r: Row): string { Get(r, Email, "") }
  function RegisteredAt(r: Row): string { Get(r, DataCadastro, "") }

  /** Python's `sub in s` on strings: `sub` occurs somewhere in `s`. */
  predicate Contains(s: string, sub: string)
    ensures sub <= s ==> Contains(s, sub)
    ensures Contains(s, sub) ==> |sub| <= |s|
  {
    assert s[0..] == s;
    exists i :: 0 <= i <= |s| && sub <= s[i..]
  }

  /** `sub` sits in `s` at offset `i`. */
  predicate OccursAt(s: string, sub: string, i: int) {
    0 <= i && i + |sub| <= |s| && s[i..i + |sub|] == sub
  }

  /** The substring test agrees with the window definition: `sub` occurs
      in `s` exactly when some window of `s` of length |sub| equals it. */
  lemma ContainsWindow(s: string, sub: string)
    ensures Contains(s, sub) <==> exists i :: OccursAt(s, sub, i)
  {
    if Contains(s, sub) {
      var i :| 0 <= i <= |s| && sub <= s[i..];
      assert s[i..][..|sub|] == s[i..i + |sub|];
      assert OccursAt(s, sub, i);
    }
    if i :| OccursAt(s, sub, i) {
      assert s[i..][..|sub|] == s[i..i + |sub|];
      assert sub <= s[i..];
    }
  }

  /** `hoje in data_cadastro`: the row's timestamp text contains today's
      `dd/mm/yyyy` text anywhere. */
  predicate RegisteredOn(r: Row, today: string)
    ensures DataCadastro !in r ==> (RegisteredOn(r, today) <==> today == "")
    ensures RegisteredOn(r, today) && today != "" ==> DataCadastro in r && |today| <= |r[DataCadastro]|
  {
    Contains(RegisteredAt(r), today)
  }

  /** The set emails_unicos ends with: the non-empty e-mails of the rows,
      collected in row order. */
  function EmailSet(rows: seq<Row>): (s: set<string>)
    ensures |s| <= |rows|
    ensures "" !in s
  {
    if rows == [] then {}
    else
      var e, prev := EmailOf(rows[|rows| - 1]), EmailSet(rows[..|rows| - 1]);
      if e == "" || e in prev then prev
      else prev + {e}
  }

  /** Some row carries the e-mail `e`. */
  predicate HasEmail(rows: seq<Row>, e: string) {
    exists j :: 0 <= j < |rows| && EmailOf(rows[j]) == e
  }

  /** emails_unicos holds exactly the non-empty e-mails that occur in a row. */
  lemma {:induction false} EmailSetMembers(rows: seq<Row>)
    ensures forall e :: e in EmailSet(rows) <==> e != "" && HasEmail(rows, e)
  {
    if rows != [] {
      var init := rows[..|rows| - 1];
      EmailSetMembers(init);
      HasEmailSnoc(rows);
    }
  }

  /** A row set's e-mails are those of all rows but the last, plus the last's. */
  lemma HasEmailSnoc(rows: seq<Row>)
    requires rows != []
    ensures forall e :: HasEmail(rows, e) <==> HasEmail(rows[..|rows| - 1], e) || EmailOf(rows[|rows| - 1]) == e
  {
    var init := rows[..|rows| - 1];
    assert forall j :: 0 <= j < |init| ==> init[j] == rows[j];
  }

  /** The value cadastros_hoje ends with: the rows registered today. */
  function CountOn(rows: seq<Row>, today: string): (n: nat)
    ensures n <= |rows|
    ensures n == 0 <==> forall j :: 0 <= j < |rows| ==> !RegisteredOn(rows[j], today)
    ensures n == |rows| <==> forall j :: 0 <= j < |rows| ==> RegisteredOn(rows[j], today)
  {
    if rows == [] then 0
    else
      var init := rows[..|rows| - 1];
      assert forall j :: 0 <= j < |init| ==> init[j] == rows[j];
      CountOn(init, today) + if RegisteredOn(rows[|rows| - 1], today) then 1 else 0
  }

  /** The `/admin/estatisticas` answer. */
  datatype Stats = Stats(
    totalUsers: nat,        // total_usuarios
    totalSimulations: nat,  // total_simulacoes
    registeredToday: nat)   // cadastros_hoje

  /** admin_estatisticas: one pass over the rows counting today's and
      collecting the distinct non-empty e-mails. */
  method AdminStatistics(store: LeadStore.LeadFile, today: string) returns (s: Stats)
    ensures var rows := Table(store.present, store.lines);
            && s.totalSimulations == |rows|
            && s.totalUsers == |EmailSet(rows)|
            && s.registeredToday == CountOn(rows, today)
            && s.totalUsers <= s.totalSimulations
            && s.registeredToday <= s.totalSimulations
  {
    var rows := store.ReadAll();
    var count := 0;
    var emails: set<string> := {};
    for i := 0 to |rows|
      invariant count == CountOn(rows[..i], today)
      invariant emails == EmailSet(rows[..i])
    {
      RunningValuesSnoc(rows, i, today);
      var registered := Get(rows[i], DataCadastro, "");
      if Contains(registered, today) {
        count := count + 1;
      }
      var email := Get(rows[i], Email, "");
      if email != "" {
        emails := emails + {email};
      }
    }
    assert rows[..|rows|] == rows;
    s := Stats(|emails|, |rows|, count);
  }

  /** One more row extends the two running values by that row alone. */
  lemma RunningValuesSnoc(rows: seq<Row>, i: nat, today: string)
    requires i < |rows|
    ensures CountOn(rows[..i + 1], today) == CountOn(rows[..i], today) + if RegisteredOn(rows[i], today) then 1 else 0
    ensures EmailSet(rows[..i + 1]) == EmailSet(rows[..i]) + if EmailOf(rows[i]) != "" then {EmailOf(rows[i])} else {}
  {
    assert rows[..i + 1][..i] == rows[..i];
  }

  /** A timestamp that starts with today's date contains it. */
  lemma ContainsPrefix(today: string, rest: string)
    ensures Contains(today + rest, today)
  {
    assert today <= (today + rest)[0..];
  }

  /** A lead saved today (its timestamp begins with today's `dd/mm/yyyy`)
      adds one simulation and one registration of the day, and one user
      exactly when its e-mail is non-empty and new. */
  lemma StatsAfterAppend(rows: seq<Row>, s: Submission, today: string, clock: string)
    requires s.now == today + clock
    ensures CountOn(rows + [NewRow(s)], today) == CountOn(rows, today) + 1
    ensures var e := Get(s.data, "email", "");
            |EmailSet(rows + [NewRow(s)])| ==
            |EmailSet(rows)| + if e != "" && e !in EmailSet(rows) then 1 else 0
  {
    NewRowFields(s);
    ContainsPrefix(today, clock);
    AppendOne(rows, NewRow(s), today);
  }

  /** The running values after one more row. */
  lemma AppendOne(rows: seq<Row>, r: Row, today: string)
    ensures CountOn(rows + [r], today) == CountOn(rows, today) + if RegisteredOn(r, today) then 1 else 0
    ensures |EmailSet(rows + [r])| ==
            |EmailSet(rows)| + if EmailOf(r) != "" && EmailOf(r) !in EmailSet(rows) then 1 else 0
  {
    var rows' := rows + [r];
    var n := |rows|;
    RunningValuesSnoc(rows', n, today);
    assert rows'[..n + 1] == rows' && rows'[..n] == rows;
    var e, prev := EmailOf(r), EmailSet(rows);
    if e != "" && e in prev {
      assert prev + {e} == prev;
    }
  }
}
