/**
 Transparent encryption of columns: which parameters of a statement are sealed before it is executed
 (src/db/query_encryption.rs, src/db/encryption.rs), and how a row's values are opened when they are read
 (src/db/executor.rs).
 */
module Encryption {
  import opened Wrappers
  import opened Text
  import opened Sql
  import opened Mutation
  import opened Placeholders
  import opened Cipher

  datatype Value = Null | Integer(i: int) | Real(r: real) | Text(text: string) | Blob(bytes: seq<bv8>)

  function ValueAsStr(v: Value): Option<string> {
    match v
    case Text(text) => Some(text)
    case Integer(i) => Some(if i < 0 then "-" + Digits(-i) else Digits(i))
    case _ => None
  }

  // ----- Writing

  /** The nonce drawn for the parameter at each position. */
  type Draw = nat -> Nonce

  /** `encrypt_param`. */
  function Sealed(s: Service, draw: Draw, params: seq<Value>, value: nat, table: string, id: nat, column: string): seq<Value> {
    if id < |params| && ValueAsStr(params[id]).Some? && value < |params| && params[value].Text? then
      params[value := Text(Encrypt(s, draw(value), table, ValueAsStr(params[id]).value, column, params[value].text))]
    else params
  }

  /** A column of an UPDATE. There is no result when locating its parameters panics. */
  function SealedUpdate(s: Service, draw: Draw, params: seq<Value>, sql: string, table: string, column: string): Option<seq<Value>> {
    var normalized := Normalize(sql);
    if QueryMutationOf(normalized) != Some(Update(table)) then Some(params)
    else
      match LocateUpdate(normalized, column)
      case None => None
      case Some(Located(Some(id), Some(value))) => Some(Sealed(s, draw, params, value, table, id, column))
      case Some(_) => Some(params)
  }

  /** `parse_sql_column_index`. It keeps what stands before the first opening parenthesis, and looks for a
      closing one there. */
  function ColumnIndex(columns: string, target: string): Option<nat> {
    match SplitOnce(Trim(columns), "(")
    case None => None
    case Some((front, _)) =>
      match RFind(front, ")")
      case None => None
      case Some(close) => PositionOf(Split(front[..close], ','), target)
  }

  function PositionOf(parts: seq<string>, target: string): Option<nat> {
    if parts == [] then None
    else if Trim(parts[0]) == target then Some(0)
    else match PositionOf(parts[1..], target) case Some(i) => Some(i + 1) case None => None
  }

  const VALUES := " values "
  const INSERT_JOB := "insert into webhook_jobs"

  /** `locate_webhook_insert_indices`. */
  function LocateJobInsert(sql: string): Located {
    match Find(sql, VALUES)
    case None => NOWHERE
    case Some(start) =>
      match JobColumns(sql)
      case None => Located(Some(0), Some(1))
      case Some(columns) =>
        if start + |VALUES| >= |sql| then NOWHERE
        else
          var placeholders := Count(sql[start + |VALUES|..], '?');
          Located(ColumnIndex(columns, "id"),
                  match ColumnIndex(columns, "payload_json")
                  case Some(i) => Some(i)
                  case None => Some(if placeholders == 0 then 0 else placeholders - 1))
  }

  function JobColumns(sql: string): Option<string> {
    match SplitOnce(sql, INSERT_JOB)
    case None => None
    case Some((_, rest)) => match SplitOnce(rest, VALUES) case Some((columns, _)) => Some(Trim(columns)) case None => None
  }

  /** `encrypt_named_payload` for an INSERT. */
  function SealedJob(s: Service, draw: Draw, params: seq<Value>, sql: string): seq<Value> {
    var normalized := Normalize(sql);
    if Find(normalized, " webhook_jobs").None? then params
    else
      match LocateJobInsert(normalized)
      case Located(Some(id), Some(value)) => Sealed(s, draw, params, value, "webhook_jobs", id, "payload_json")
      case _ => params
  }

  function Then(s: Service, draw: Draw, params: Option<seq<Value>>, sql: string, table: string, column: string): Option<seq<Value>> {
    match params case Some(p) => SealedUpdate(s, draw, p, sql, table, column) case None => None
  }

  function SealedParams(s: Service, draw: Draw, params: seq<Value>, sql: string): Option<seq<Value>> {
    match QueryMutationOf(sql)
    case Some(Insert(table)) =>
      if table == "threads" then Some(Sealed(s, draw, Sealed(s, draw, params, 3, table, 0, "title"), 4, table, 0, "body"))
      else if table == "comments" then Some(Sealed(s, draw, params, 5, table, 0, "body"))
      else if table == "conversation_messages" then Some(Sealed(s, draw, params, 4, table, 0, "body"))
      else if table == "notifications" then Some(Sealed(s, draw, Sealed(s, draw, params, 9, table, 0, "title"), 10, table, 0, "body"))
      else if table == "webhook_jobs" then Some(SealedJob(s, draw, params, sql))
      else Some(params)
    case Some(Update(table)) =>
      if table == "threads" then Then(s, draw, SealedUpdate(s, draw, params, sql, table, "title"), sql, table, "body")
      else if table == "comments" || table == "conversation_messages" then SealedUpdate(s, draw, params, sql, table, "body")
      else if table == "webhook_jobs" then SealedUpdate(s, draw, params, sql, table, "payload_json")
      else Some(params)
    case _ => Some(params)
  }

  method EncryptParam(s: Service, draw: Draw, params: array<Value>, value: nat, table: string, id: nat, column: string)
    modifies params
    ensures params[..] == Sealed(s, draw, old(params[..]), value, table, id, column)
  {
    hide Encrypt, Digits;
    if id >= params.Length || value >= params.Length {
      return;
    }
    var rowId := ValueAsStr(params[id]);
    if rowId.None? {
      return;
    }
    match params[value] {
      case Text(plaintext) => params[value] := Text(Encrypt(s, draw(value), table, rowId.value, column, plaintext));
      case _ =>
    }
  }

  /** The parameters are overwritten in place. After a panic the statement is never executed. */
  method EncryptNamedUpdateColumn(s: Service, draw: Draw, params: array<Value>, sql: string, table: string, column: string)
    returns (panicked: bool)
    modifies params
    ensures var r := SealedUpdate(s, draw, old(params[..]), sql, table, column);
            panicked == r.None? && (!panicked ==> params[..] == r.value)
  {
    hide Sealed, Normalize, QueryMutationOf, LocateUpdate;
    panicked := false;
    var normalized := Normalize(sql);
    if QueryMutationOf(normalized) != Some(Update(table)) {
      return;
    }
    var located := LocateUpdateIndices(normalized, column);
    match located {
      case None => panicked := true;
      case Some(Located(Some(id), Some(value))) => EncryptParam(s, draw, params, value, table, id, column);
      case Some(_) =>
    }
  }

  method EncryptNamedPayload(s: Service, draw: Draw, params: array<Value>, sql: string)
    modifies params
    ensures params[..] == SealedJob(s, draw, old(params[..]), sql)
  {
    hide Sealed, Normalize, LocateJobInsert;
    var normalized := Normalize(sql);
    if Find(normalized, " webhook_jobs").Some? {
      match LocateJobInsert(normalized) {
        case Located(Some(id), Some(value)) =>
          EncryptParam(s, draw, params, value, "webhook_jobs", id, "payload_json");
        case _ =>
      }
    }
  }

  method EncryptQueryParams(encryption: Option<Service>, draw: Draw, sql: string, params: array<Value>)
    returns (panicked: bool)
    modifies params
    ensures encryption.None? ==> !panicked && params[..] == old(params[..])
    ensures encryption.Some? ==>
              var r := SealedParams(encryption.value, draw, old(params[..]), sql);
              panicked == r.None? && (!panicked ==> params[..] == r.value)
  {
    hide Sealed, SealedUpdate, SealedJob, QueryMutationOf;
    panicked := false;
    if encryption.None? {
      return;
    }
    var s := encryption.value;
    match QueryMutationOf(sql) {
      case Some(Insert(table)) =>
        if table == "threads" {
          EncryptParam(s, draw, params, 3, "threads", 0, "title");
          EncryptParam(s, draw, params, 4, "threads", 0, "body");
        } else if table == "comments" {
          EncryptParam(s, draw, params, 5, "comments", 0, "body");
        } else if table == "conversation_messages" {
          EncryptParam(s, draw, params, 4, "conversation_messages", 0, "body");
        } else if table == "notifications" {
          EncryptParam(s, draw, params, 9, "notifications", 0, "title");
          EncryptParam(s, draw, params, 10, "notifications", 0, "body");
        } else if table == "webhook_jobs" {
          EncryptNamedPayload(s, draw, params, sql);
        }
      case Some(Update(table)) =>
        if table == "threads" {
          panicked := EncryptNamedUpdateColumn(s, draw, params, sql, "threads", "title");
          if !panicked {
            panicked := EncryptNamedUpdateColumn(s, draw, params, sql, "threads", "body");
          }
        } else if table == "comments" {
          panicked := EncryptNamedUpdateColumn(s, draw, params, sql, "comments", "body");
        } else if table == "conversation_messages" {
          panicked := EncryptNamedUpdateColumn(s, draw, params, sql, "conversation_messages", "body");
        } else if table == "webhook_jobs" {
          panicked := EncryptNamedUpdateColumn(s, draw, params, sql, "webhook_jobs", "payload_json");
        }
      case _ =>
    }
  }

  // ----- Reading

  function TablesFor(column: string): seq<string> {
    if column == "title" then ["threads", "notifications"]
    else if column == "body" then ["threads", "comments", "conversation_messages", "notifications"]
    else if column == "payload_json" then ["webhook_jobs"]
    else ["threads", "comments", "conversation_messages", "notifications", "webhook_jobs"]
  }

  datatype DbRow = DbRow(values: seq<Value>, columns: map<string, nat>, rowIdHint: Option<string>, encryption: Option<Service>)

  /** The row's id: its own `id` column, else the hint from the query, else nothing. */
  function RowId(row: DbRow): string {
    var own := if "id" in row.columns && row.columns["id"] < |row.values| then ValueAsStr(row.values[row.columns["id"]]) else None;
    match own
    case Some(id) => id
    case None => row.rowIdHint.GetOr("")
  }

  function FirstOpened(s: Service, tables: seq<string>, id: string, column: string, envelope: string): Option<string> {
    if tables == [] then None
    else
      match Decrypt(s, tables[0], id, column, envelope)
      case Some(plaintext) => Some(plaintext)
      case None => FirstOpened(s, tables[1..], id, column, envelope)
  }

  datatype Read = Got(value: Value) | NoKey | Undecryptable

  /** `decrypt_value`, under the name the column was found by. A column has two names when its own is not in
      lower case, and then either may be the one. */
  function DecryptValue(row: DbRow, name: string, value: Value): Read {
    if !value.Text? || !(ENVELOPE_PREFIX <= value.text) then Got(value)
    else
      match row.encryption
      case None => NoKey
      case Some(s) =>
        match FirstOpened(s, TablesFor(name), RowId(row), name, value.text)
        case Some(plaintext) => Got(Text(plaintext))
        case None => Undecryptable
  }

  /** A row's own id counts, whatever the query suggests; the hint is for rows without one. */
  lemma RowIdExactly(row: DbRow, id: string)
    ensures "id" in row.columns && row.columns["id"] < |row.values| && ValueAsStr(row.values[row.columns["id"]]) == Some(id) ==>
              RowId(row) == id
    ensures "id" !in row.columns && row.rowIdHint == Some(id) ==> RowId(row) == id
    ensures "id" !in row.columns && row.rowIdHint == None ==> RowId(row) == ""
  {
    hide ValueAsStr;
  }

  /** `row_id_hint`: the first parameter of a query for one row. */
  function RowIdHint(sql: string, params: seq<Value>): Option<string> {
    if Find(Normalize(sql), " where id = ?").Some? && params != [] then ValueAsStr(params[0]) else None
  }

  // ----- Only the right table opens

  predicate NoColons(tables: seq<string>) { forall i | 0 <= i < |tables| :: ':' !in tables[i] }

  lemma {:induction false} OnlyItsTableOpens(s: Service, n: Nonce, table: string, rowId: string, column: string,
                                             plaintext: string, tables: seq<string>, id: string, name: string)
    requires Ideal(s) && !(ENVELOPE_PREFIX <= plaintext)
    requires ':' !in table && ':' !in column && ':' !in name && NoColons(tables)
    ensures FirstOpened(s, tables, id, name, Encrypt(s, n, table, rowId, column, plaintext))
            == if table in tables && id == rowId && name == column then Some(plaintext) else None
  {
    hide Encrypt, Decrypt, Ideal;
    if tables != [] {
      EnvelopeOpensExactly(s, n, table, rowId, column, plaintext, tables[0], id, name);
      OnlyItsTableOpens(s, n, table, rowId, column, plaintext, tables[1..], id, name);
      assert tables == [tables[0]] + tables[1..];
    }
  }

  lemma TableNames(name: string)
    ensures NoColons(TablesFor(name))
  {
  }

  /** What was sealed for a column of a row is read back from that row under that name, and from no other
      row and under no other name. */
  lemma StoredIsReadBackExactly(s: Service, n: Nonce, table: string, rowId: string, column: string, plaintext: string,
                                row: DbRow, name: string)
    requires Ideal(s) && !(ENVELOPE_PREFIX <= plaintext) && row.encryption == Some(s)
    requires ':' !in table && ':' !in column && ':' !in name && table in TablesFor(column)
    ensures DecryptValue(row, name, Text(Encrypt(s, n, table, rowId, column, plaintext)))
            == if RowId(row) == rowId && name == column then Got(Text(plaintext)) else Undecryptable
  {
    hide Encrypt, Ideal, FirstOpened, TablesFor, RowId;
    TableNames(name);
    EncryptingTwice(s, n, n, table, rowId, column, plaintext);
    OnlyItsTableOpens(s, n, table, rowId, column, plaintext, TablesFor(name), RowId(row), name);
  }

  /** Without a key every sealed value is an error, whatever its row and its column's name; what is not
      sealed is read as it is, with a key or without. */
  lemma SealedNeedsTheKey(row: DbRow, name: string, value: Value)
    ensures row.encryption.None? ==>
              (DecryptValue(row, name, value) == NoKey <==> value.Text? && ENVELOPE_PREFIX <= value.text)
    ensures DecryptValue(row, name, value) == NoKey ==> row.encryption.None?
    ensures !(value.Text? && ENVELOPE_PREFIX <= value.text) ==> DecryptValue(row, name, value) == Got(value)
  {
    hide FirstOpened, TablesFor, RowId;
  }

  lemma ThreadNames()
    ensures ':' !in "threads" && ':' !in "title" && ':' !in "thread_title" && "thread_title" != "title"
    ensures "threads" in TablesFor("title")
  {
  }

  /** So a thread's title cannot be read as `thread_title`, nor as `title` in the row of anything else. */
  lemma JoinedTitleIsUnreadable(s: Service, n: Nonce, threadId: string, title: string, row: DbRow)
    requires Ideal(s) && !(ENVELOPE_PREFIX <= title) && row.encryption == Some(s)
    ensures var stored := Text(Encrypt(s, n, "threads", threadId, "title", title));
            && DecryptValue(row, "thread_title", stored) == Undecryptable
            && (DecryptValue(row, "title", stored) == Undecryptable <==> RowId(row) != threadId)
  {
    hide Encrypt, Ideal, DecryptValue, TablesFor, RowId;
    ThreadNames();
    StoredIsReadBackExactly(s, n, "threads", threadId, "title", title, row, "thread_title");
    StoredIsReadBackExactly(s, n, "threads", threadId, "title", title, row, "title");
  }

  // ----- INSERT

  /** The positions at which an INSERT carries encrypted columns, its id being first. */
  predicate IsInserted(table: string, value: nat, column: string) {
    || (table == "threads" && ((value == 3 && column == "title") || (value == 4 && column == "body")))
    || (table == "comments" && value == 5 && column == "body")
    || (table == "conversation_messages" && value == 4 && column == "body")
    || (table == "notifications" && ((value == 9 && column == "title") || (value == 10 && column == "body")))
  }

  lemma InsertedNames(table: string, value: nat, column: string)
    requires IsInserted(table, value, column)
    ensures value != 0 && ':' !in table && ':' !in column && table in TablesFor(column)
  {
  }

  lemma SealedAt(s: Service, draw: Draw, params: seq<Value>, value: nat, table: string, id: nat, column: string, i: nat)
    requires i < |params|
    ensures var r := Sealed(s, draw, params, value, table, id, column);
            && |r| == |params|
            && (i != value || !params[i].Text? ==> r[i] == params[i])
            && (i == value && id < |params| && ValueAsStr(params[id]).Some? && params[i].Text? ==>
                  r[i] == Text(Encrypt(s, draw(i), table, ValueAsStr(params[id]).value, column, params[i].text)))
  {
    hide Encrypt, ValueAsStr;
  }

  /** What an INSERT does to each parameter. */
  lemma InsertSealsExactly(s: Service, draw: Draw, params: seq<Value>, sql: string, table: string, i: nat)
    requires QueryMutationOf(sql) == Some(Insert(table)) && table != "webhook_jobs" && i < |params|
    ensures var r := SealedParams(s, draw, params, sql);
            && r.Some? && |r.value| == |params|
            && (!params[i].Text? || (forall column :: !IsInserted(table, i, column)) ==> r.value[i] == params[i])
            && forall column | IsInserted(table, i, column) && ValueAsStr(params[0]).Some? && params[i].Text? ::
                 r.value[i] == Text(Encrypt(s, draw(i), table, ValueAsStr(params[0]).value, column, params[i].text))
  {
    hide Sealed, Encrypt, ValueAsStr, QueryMutationOf;
    if table == "threads" {
      assert IsInserted(table, 3, "title") && IsInserted(table, 4, "body");
      var first := Sealed(s, draw, params, 3, table, 0, "title");
      SealedAt(s, draw, params, 3, table, 0, "title", i);
      SealedAt(s, draw, params, 3, table, 0, "title", 0);
      SealedAt(s, draw, first, 4, table, 0, "body", i);
    } else if table == "comments" {
      assert IsInserted(table, 5, "body");
      SealedAt(s, draw, params, 5, table, 0, "body", i);
    } else if table == "conversation_messages" {
      assert IsInserted(table, 4, "body");
      SealedAt(s, draw, params, 4, table, 0, "body", i);
    } else if table == "notifications" {
      assert IsInserted(table, 9, "title") && IsInserted(table, 10, "body");
      var first := Sealed(s, draw, params, 9, table, 0, "title");
      SealedAt(s, draw, params, 9, table, 0, "title", i);
      SealedAt(s, draw, params, 9, table, 0, "title", 0);
      SealedAt(s, draw, first, 10, table, 0, "body", i);
    }
  }

  // ----- UPDATE, then read

  predicate IsUpdated(table: string, column: string) {
    || (table == "threads" && (column == "title" || column == "body"))
    || (table == "comments" && column == "body")
    || (table == "conversation_messages" && column == "body")
    || (table == "webhook_jobs" && column == "payload_json")
  }

  lemma TableIsWord(table: string)
    requires table == "threads" || table == "comments" || table == "webhook_jobs"
    ensures IsWord(table) && ':' !in table && '?' !in table
  {
  }

  lemma MessagesIsWord()
    ensures IsWord("conversation_messages") && ':' !in "conversation_messages" && '?' !in "conversation_messages"
  {
  }

  lemma WordHasNoBlank(w: string)
    requires IsWord(w)
    ensures ' ' !in w
  {
  }

  lemma UpdatedNames(table: string, column: string)
    requires IsUpdated(table, column)
    ensures ':' !in table && ' ' !in table && '?' !in table && IsWord(table)
    ensures ':' !in column && table in TablesFor(column)
  {
    hide IsWord;
    if table == "conversation_messages" {
      MessagesIsWord();
    } else {
      TableIsWord(table);
    }
    WordHasNoBlank(table);
  }

  /** A normalised UPDATE of the handled shape, in which each encrypted column is set once, from a
      placeholder. */
  ghost predicate IsHandled(sql: string, table: string, assignments: seq<string>, rest: string) {
    && IsShape(table, assignments, WhereId(rest))
    && Normalize(sql) == UpdateText(table, assignments, WhereId(rest))
    && forall k, column | 0 <= k < |assignments| && IsUpdated(table, column) && Left(assignments[k]) == column ::
         '?' in assignments[k] && IsLast(assignments, column, k)
  }

  function WhereId(rest: string): string { "id" + (" " + ("=" + (" " + rest))) }

  lemma UpdateIsClassified(table: string, rest: string)
    requires IsWord(table)
    ensures var text := "update" + (" " + (table + (SET + rest)));
            !(WITH <= text) && Classify(Words(text), text) == Some(Update(table))
  {
    assert IsWord("update");
    var text := "update" + (" " + (table + (SET + rest)));
    assert text[0] == 'u';
    hide Words;
    FirstWord("update", " " + (table + (SET + rest)));
    BlankSeparates(table + (SET + rest));
    FirstWord(table, SET + rest);
  }

  lemma ShapeIsUpdate(sql: string, table: string, assignments: seq<string>, whereClause: string)
    requires assignments != [] && IsWord(table) && Normalize(sql) == UpdateText(table, assignments, whereClause)
    ensures QueryMutationOf(sql) == Some(Update(table)) && QueryMutationOf(Normalize(sql)) == Some(Update(table))
  {
    hide Normalize, Classify, Words, Join, StripFrom;
    NormalisingDoesNotMatter(sql);
    UpdateIsClassified(table, Join(assignments, ',') + (WHERE + whereClause));
  }

  lemma HandledIsUpdate(sql: string, table: string, assignments: seq<string>, rest: string)
    requires IsHandled(sql, table, assignments, rest) && IsWord(table)
    ensures QueryMutationOf(sql) == Some(Update(table)) && QueryMutationOf(Normalize(sql)) == Some(Update(table))
  {
    hide Normalize, UpdateText, QueryMutationOf, IsLast, Left;
    ShapeIsUpdate(sql, table, assignments, WhereId(rest));
  }

  /** One column: it is sealed at its placeholder if it is assigned, and nothing else changes. */
  lemma OneColumn(s: Service, draw: Draw, params: seq<Value>, sql: string, table: string, assignments: seq<string>,
                  rest: string, column: string, k: nat)
    requires IsHandled(sql, table, assignments, rest) && IsUpdated(table, column)
    requires k < |assignments| && Left(assignments[k]) == column
    ensures SealedUpdate(s, draw, params, sql, table, column)
            == Some(Sealed(s, draw, params, Total(assignments[..k]), table, Total(assignments), column))
  {
    hide Normalize, QueryMutationOf, Words, NamesId, Left, Sealed, LocateUpdate, LocateIn, UpdateText, Total, Join, IsLast, IsUpdated, IsWord;
    UpdatedNames(table, column);
    HandledIsUpdate(sql, table, assignments, rest);
    ClausesAreFound(table, assignments, WhereId(rest), column);
    LocatedExactly(assignments, WhereId(rest), column, k);
    IdIsSeen(rest);
  }

  lemma NoColumn(s: Service, draw: Draw, params: seq<Value>, sql: string, table: string, assignments: seq<string>,
                 rest: string, column: string)
    requires IsHandled(sql, table, assignments, rest) && IsUpdated(table, column)
    requires forall k | 0 <= k < |assignments| :: Left(assignments[k]) != column
    ensures SealedUpdate(s, draw, params, sql, table, column) == Some(params)
  {
    hide Normalize, QueryMutationOf, Words, NamesId, Left, Sealed, LocateUpdate, UpdateText, Join, IsLast, IsUpdated, Scan, Split, IsWord;
    UpdatedNames(table, column);
    HandledIsUpdate(sql, table, assignments, rest);
    ClausesAreFound(table, assignments, WhereId(rest), column);
    SplitJoined(assignments, ',');
    ScanSkips(assignments, column, Scanned(None, 0));
  }

  /** What one column does to the parameter at `i`. */
  ghost predicate SealsOne(s: Service, draw: Draw, before: seq<Value>, after: Option<seq<Value>>, table: string,
                           assignments: seq<string>, column: string) {
    && after.Some? && |after.value| == |before|
    && (forall i | 0 <= i < |before| && !IsPlaceholderOf(assignments, column, i) :: after.value[i] == before[i])
    && forall i | 0 <= i < |before| && IsPlaceholderOf(assignments, column, i) && before[i].Text?
                  && Total(assignments) < |before| && ValueAsStr(before[Total(assignments)]).Some? ::
         after.value[i] == Text(Encrypt(s, draw(i), table, ValueAsStr(before[Total(assignments)]).value, column, before[i].text))
  }

  ghost predicate IsPlaceholderOf(assignments: seq<string>, column: string, i: nat) {
    exists k :: 0 <= k < |assignments| && IsLast(assignments, column, k) && i == Total(assignments[..k])
  }

  /** A handled column has one placeholder. */
  lemma PlaceholderIsUnique(sql: string, table: string, assignments: seq<string>, rest: string, column: string, k: nat, i: nat)
    requires IsHandled(sql, table, assignments, rest) && IsUpdated(table, column)
    requires k < |assignments| && Left(assignments[k]) == column
    ensures IsPlaceholderOf(assignments, column, i) <==> i == Total(assignments[..k])
  {
    hide Left, Normalize, UpdateText, IsShape, IsUpdated, Total;
    assert IsLast(assignments, column, k);
  }

  lemma ColumnSealsOne(s: Service, draw: Draw, params: seq<Value>, sql: string, table: string, assignments: seq<string>,
                       rest: string, column: string)
    requires IsHandled(sql, table, assignments, rest) && IsUpdated(table, column)
    ensures SealsOne(s, draw, params, SealedUpdate(s, draw, params, sql, table, column), table, assignments, column)
  {
    if k: nat :| k < |assignments| && Left(assignments[k]) == column {
      AssignedSealsOne(s, draw, params, sql, table, assignments, rest, column, k);
    } else {
      hide Left, Normalize, UpdateText, IsShape, IsUpdated, SealedUpdate, Sealed, Encrypt, ValueAsStr, Total;
      NoColumn(s, draw, params, sql, table, assignments, rest, column);
    }
  }

  lemma AssignedSealsOne(s: Service, draw: Draw, params: seq<Value>, sql: string, table: string, assignments: seq<string>,
                         rest: string, column: string, k: nat)
    requires IsHandled(sql, table, assignments, rest) && IsUpdated(table, column)
    requires k < |assignments| && Left(assignments[k]) == column
    ensures SealsOne(s, draw, params, SealedUpdate(s, draw, params, sql, table, column), table, assignments, column)
  {
    hide *;
    var value, id := Total(assignments[..k]), Total(assignments);
    OneColumn(s, draw, params, sql, table, assignments, rest, column, k);
    forall i: nat | i < |params|
      ensures IsPlaceholderOf(assignments, column, i) <==> i == value
    {
      PlaceholderIsUnique(sql, table, assignments, rest, column, k, i);
    }
    SealingSealsOne(s, draw, params, table, assignments, column, value);
  }

  lemma SealingSealsOne(s: Service, draw: Draw, params: seq<Value>, table: string, assignments: seq<string>,
                        column: string, value: nat)
    requires forall i: nat | i < |params| :: IsPlaceholderOf(assignments, column, i) <==> i == value
    ensures SealsOne(s, draw, params, Some(Sealed(s, draw, params, value, table, Total(assignments), column)),
                     table, assignments, column)
  {
    hide IsPlaceholderOf, Encrypt, ValueAsStr, Total;
  }

  lemma TotalsDiffer(assignments: seq<string>, j: nat, k: nat)
    requires j < |assignments| && k < |assignments| && j != k && '?' in assignments[j] && '?' in assignments[k]
    ensures Total(assignments[..j]) != Total(assignments[..k])
  {
    hide Total;
    if j < k {
      TotalsIncrease(assignments, j, k);
    } else {
      TotalsIncrease(assignments, k, j);
    }
  }

  /** Two handled columns have different placeholders, and the id has another. */
  lemma PlaceholdersDiffer(sql: string, table: string, assignments: seq<string>, rest: string, a: string, b: string, i: nat)
    requires IsHandled(sql, table, assignments, rest) && IsUpdated(table, a) && IsUpdated(table, b) && a != b
    ensures !(IsPlaceholderOf(assignments, a, i) && IsPlaceholderOf(assignments, b, i))
  {
    hide Left, Normalize, UpdateText, IsShape, IsUpdated, Total;
    forall j: nat, k: nat | IsLast(assignments, a, j) && IsLast(assignments, b, k)
      ensures Total(assignments[..j]) != Total(assignments[..k])
    {
      TotalsDiffer(assignments, j, k);
    }
  }

  lemma IdIsNoValue(sql: string, table: string, assignments: seq<string>, rest: string, column: string)
    requires IsHandled(sql, table, assignments, rest) && IsUpdated(table, column)
    ensures !IsPlaceholderOf(assignments, column, Total(assignments))
  {
    hide Left, Normalize, UpdateText, IsShape, IsUpdated, Total;
    assert assignments[..|assignments|] == assignments;
    forall k: nat | IsLast(assignments, column, k)
      ensures Total(assignments[..k]) != Total(assignments)
    {
      TotalsIncrease(assignments, k, |assignments|);
    }
  }

  /** What an UPDATE of the handled shape does to the parameter at `i`. */
  ghost predicate SealsAt(s: Service, draw: Draw, before: seq<Value>, after: Option<seq<Value>>, table: string,
                          assignments: seq<string>, i: nat)
    requires i < |before|
  {
    && after.Some? && |after.value| == |before|
    && ((forall column | IsUpdated(table, column) :: !IsPlaceholderOf(assignments, column, i)) ==> after.value[i] == before[i])
    && forall column | IsUpdated(table, column) && IsPlaceholderOf(assignments, column, i) && before[i].Text?
                       && Total(assignments) < |before| && ValueAsStr(before[Total(assignments)]).Some? ::
         after.value[i] == Text(Encrypt(s, draw(i), table, ValueAsStr(before[Total(assignments)]).value, column, before[i].text))
  }

  lemma UpdateSealsExactly(s: Service, draw: Draw, params: seq<Value>, sql: string, table: string,
                           assignments: seq<string>, rest: string, i: nat)
    requires IsHandled(sql, table, assignments, rest) && IsUpdated(table, if table == "webhook_jobs" then "payload_json" else "body")
    requires i < |params|
    ensures SealsAt(s, draw, params, SealedParams(s, draw, params, sql), table, assignments, i)
  {
    hide SealedUpdate, IsHandled, IsPlaceholderOf, Total, Encrypt, ValueAsStr, QueryMutationOf, Normalize;
    UpdatedNames(table, if table == "webhook_jobs" then "payload_json" else "body");
    HandledIsUpdate(sql, table, assignments, rest);
    if table == "threads" {
      var mid := SealedUpdate(s, draw, params, sql, table, "title");
      ColumnSealsOne(s, draw, params, sql, table, assignments, rest, "title");
      ColumnSealsOne(s, draw, mid.value, sql, table, assignments, rest, "body");
      PlaceholdersDiffer(sql, table, assignments, rest, "title", "body", i);
      IdIsNoValue(sql, table, assignments, rest, "title");
      ThreadsSealsAt(s, draw, params, mid, SealedUpdate(s, draw, mid.value, sql, table, "body"), assignments, i);
    } else {
      var column := if table == "webhook_jobs" then "payload_json" else "body";
      ColumnSealsOne(s, draw, params, sql, table, assignments, rest, column);
    }
  }

  lemma ThreadsSealsAt(s: Service, draw: Draw, params: seq<Value>, mid: Option<seq<Value>>, after: Option<seq<Value>>,
                       assignments: seq<string>, i: nat)
    requires i < |params| && SealsOne(s, draw, params, mid, "threads", assignments, "title")
    requires SealsOne(s, draw, mid.value, after, "threads", assignments, "body")
    requires !(IsPlaceholderOf(assignments, "title", i) && IsPlaceholderOf(assignments, "body", i))
    requires !IsPlaceholderOf(assignments, "title", Total(assignments))
    ensures SealsAt(s, draw, params, after, "threads", assignments, i)
  {
    hide IsPlaceholderOf, Total, Encrypt, ValueAsStr;
    assert IsUpdated("threads", "title") && IsUpdated("threads", "body");
  }

  /** A plaintext that an UPDATE of the handled shape gives an encrypted column is stored sealed, and read
      back unchanged from the row with the id of its where clause. Its parameters are named by the number
      of placeholders before them in the statement. */
  lemma UpdateIsTransparent(s: Service, draw: Draw, params: seq<Value>, sql: string, table: string, assignments: seq<string>,
                            rest: string, column: string, k: nat, left: string, right: string, row: DbRow)
    requires Ideal(s) && IsHandled(sql, table, assignments, rest) && IsUpdated(table, column)
    requires k < |assignments| && assignments[k] == left + ("=" + right)
    requires '=' !in left && '?' !in left && Trim(left) == column
    requires var value, id := Count(BeforeValue(table, assignments, k, left), '?'), Count(BeforeWhere(table, assignments), '?');
             && value < |params| && params[value].Text? && !(ENVELOPE_PREFIX <= params[value].text)
             && id < |params| && ValueAsStr(params[id]) == Some(RowId(row)) && row.encryption == Some(s)
    ensures var value := Count(BeforeValue(table, assignments, k, left), '?');
            var stored := SealedParams(s, draw, params, sql);
            && stored.Some? && |stored.value| == |params|
            && stored.value[value].Text? && ENVELOPE_PREFIX <= stored.value[value].text
            && DecryptValue(row, column, stored.value[value]) == Got(params[value])
  {
    hide *;
    UpdatedNames(table, column);
    LeftOf(left, right);
    BeforeValueCounts(table, assignments, k, left);
    ShapeHasAssignments(sql, table, assignments, rest);
    BeforeWhereCounts(table, assignments);
    var value := Total(assignments[..k]);
    MainColumn(table, column);
    UpdateSealsExactly(s, draw, params, sql, table, assignments, rest, value);
    PlaceholderIsUnique(sql, table, assignments, rest, column, k, value);
    var rowId, text := RowId(row), params[value].text;
    AtPlaceholder(s, draw, params, SealedParams(s, draw, params, sql), table, assignments, column, value);
    EncryptingTwice(s, draw(value), draw(value), table, rowId, column, text);
    StoredIsReadBackExactly(s, draw(value), table, rowId, column, text, row, column);
  }

  lemma ShapeHasAssignments(sql: string, table: string, assignments: seq<string>, rest: string)
    requires IsHandled(sql, table, assignments, rest)
    ensures assignments != []
  {
  }

  lemma MainColumn(table: string, column: string)
    requires IsUpdated(table, column)
    ensures IsUpdated(table, if table == "webhook_jobs" then "payload_json" else "body")
  {
  }

  lemma AtPlaceholder(s: Service, draw: Draw, before: seq<Value>, after: Option<seq<Value>>, table: string,
                      assignments: seq<string>, column: string, i: nat)
    requires i < |before| && SealsAt(s, draw, before, after, table, assignments, i)
    requires IsUpdated(table, column) && IsPlaceholderOf(assignments, column, i) && before[i].Text?
    requires Total(assignments) < |before| && ValueAsStr(before[Total(assignments)]).Some?
    ensures after.Some? && |after.value| == |before|
    ensures after.value[i] == Text(Encrypt(s, draw(i), table, ValueAsStr(before[Total(assignments)]).value, column, before[i].text))
  {
    hide IsPlaceholderOf, Total, Encrypt, ValueAsStr, IsUpdated;
  }

  lemma {:induction false} NoSecondWhere(s: string)
    requires forall i | 0 <= i < |s| - 1 :: !(s[i] == ' ' && s[i + 1] == 'w')
    ensures RFind(s, WHERE) == None
  {
    if s != [] {
      NoSecondWhere(s[1..]);
      assert WHERE[0] == ' ' && WHERE[1] == 'w';
    }
  }

  lemma PlainAssignment(left: string)
    requires IsWord(left) && '=' !in left && ',' !in left
    ensures Left(left + " = ?") == Left(" " + left + " = ?") == left
    ensures ',' !in left + " = ?" && ',' !in " " + left + " = ?"
  {
    LeftOf(left + " ", " ?");
    LeftOf(" " + left + " ", " ?");
    assert left + " = ?" == (left + " ") + ("=" + " ?");
    assert " " + left + " = ?" == (" " + left + " ") + ("=" + " ?");
    TrimBlank(left);
  }

  lemma TrimBlank(w: string)
    requires IsWord(w)
    ensures Trim(w + " ") == w && Trim(" " + w + " ") == w
  {
    var padded := w + " ";
    assert padded[|padded| - 1] == ' ' && padded[..|padded| - 1] == w && padded[0] == w[0];
    assert TrimEnd(w) == w && TrimEnd(padded) == TrimEnd(padded[..|padded| - 1]);
    assert TrimStart(padded) == padded;
    assert (" " + w + " ")[0] == ' ' && (" " + w + " ")[1..] == padded;
  }

  lemma ColumnWords()
    ensures IsWord("title") && '=' !in "title" && ',' !in "title"
    ensures IsWord("body") && '=' !in "body" && ',' !in "body"
  {
  }

  lemma ThreadsIsName()
    ensures ' ' !in "threads" && "threads" != "set"
  {
  }

  lemma WhereIdIsPlain()
    ensures RFind("where " + WhereId("?"), WHERE) == None
  {
    NoSecondWhere("where " + WhereId("?"));
  }

  /** For example, `UPDATE threads SET title = ?, body = ? WHERE id = ?`, however it is spaced, is of the
      handled shape. */
  lemma TitleAndBodyAreHandled(sql: string)
    requires Normalize(sql) == UpdateText("threads", ["title" + " = ?", " " + "body" + " = ?"], WhereId("?"))
    ensures IsHandled(sql, "threads", ["title" + " = ?", " " + "body" + " = ?"], "?")
  {
    hide Left, Normalize, RFind, UpdateText, IsWord;
    ColumnWords();
    PlainAssignment("title");
    PlainAssignment("body");
    ThreadsIsName();
    WhereIdIsPlain();
    assert ("title" + " = ?")[|"title"| + 3] == '?' && (" " + "body" + " = ?")[|"body"| + 4] == '?';
  }

  // ----- Statements that are not handled

  /** When neither an encrypted column nor any behind it is set from a placeholder, the id itself is
      sealed, and the statement finds no row. */
  lemma LiteralSealsTheId(s: Service, draw: Draw, params: seq<Value>, sql: string, table: string, assignments: seq<string>,
                          rest: string, column: string, k: nat)
    requires IsShape(table, assignments, WhereId(rest)) && Normalize(sql) == UpdateText(table, assignments, WhereId(rest))
    requires IsUpdated(table, column) && IsLast(assignments, column, k) && NoneFrom(assignments, k)
    requires Total(assignments) < |params| && params[Total(assignments)].Text?
    ensures var id := Total(assignments);
            SealedUpdate(s, draw, params, sql, table, column)
            == Some(params[id := Text(Encrypt(s, draw(id), table, params[id].text, column, params[id].text))])
  {
    hide Normalize, QueryMutationOf, Words, NamesId, Left, LocateUpdate, UpdateText, Total, Join, IsLast;
    hide IsUpdated, IsWord, NoneFrom, Encrypt;
    UpdatedNames(table, column);
    ShapeIsUpdate(sql, table, assignments, WhereId(rest));
    LiteralTakesTheNextPlaceholder(table, assignments, WhereId(rest), column, k);
    IdIsSeen(rest);
  }

  /** An UPDATE of notifications writes its parameters as they are, and so does every statement on a table
      without encrypted columns. */
  lemma UnhandledStaysPlain(s: Service, draw: Draw, params: seq<Value>, sql: string)
    requires match QueryMutationOf(sql)
             case Some(Insert(table)) => table !in {"threads", "comments", "conversation_messages", "notifications", "webhook_jobs"}
             case Some(Update(table)) => table !in {"threads", "comments", "conversation_messages", "webhook_jobs"}
             case _ => true
    ensures SealedParams(s, draw, params, sql) == Some(params)
  {
    hide Sealed, SealedUpdate, SealedJob, QueryMutationOf;
  }

  /** `INSERT OR IGNORE INTO threads` is taken for an insert into a table called `ignore`. */
  lemma InsertOrStaysPlain(s: Service, draw: Draw, params: seq<Value>, sql: string, conflict: string)
    requires !(WITH <= Normalize(sql)) && |Words(Normalize(sql))| > 2
    requires Words(Normalize(sql))[..3] == ["insert", "or", conflict]
    requires conflict in {"ignore", "abort", "fail", "rollback", "replace"}
    ensures SealedParams(s, draw, params, sql) == Some(params)
  {
    var tokens := Words(Normalize(sql));
    InsertOrTable(tokens, Normalize(sql), conflict);
    assert QueryMutationOf(sql) == Some(Insert(conflict));
    hide SealedParams, QueryMutationOf, Words, Normalize;
    UnhandledStaysPlain(s, draw, params, sql);
  }

  lemma InsertOrTable(tokens: seq<string>, statement: string, conflict: string)
    requires |tokens| > 2 && tokens[..3] == ["insert", "or", conflict] && conflict != "into"
    ensures Classify(tokens, statement) == Some(Insert(conflict))
  {
    assert tokens[0] == tokens[..3][0] == "insert" && tokens[1] == tokens[..3][1] == "or" && tokens[2] == tokens[..3][2];
    assert tokens[1..][0] == "or" && tokens[1..][1..][0] == conflict;
  }

  // ----- Webhook jobs

  /** A closing parenthesis stands before the first opening one. */
  predicate ClosesFirst(text: string) {
    match SplitOnce(text, "(") case Some((front, _)) => ')' in front case None => false
  }

  lemma {:induction false} NothingClosed(s: string)
    requires ')' !in s
    ensures RFind(s, ")") == None
  {
    if s != [] {
      assert s[0] in s;
      NothingClosed(s[1..]);
    }
  }

  /** A column is found only where a parenthesis closes before the first one opens. */
  lemma ListedColumnsAreNotFound(list: string, target: string)
    ensures ColumnIndex(list, target).Some? ==> ClosesFirst(Trim(list))
  {
    hide Trim, Find, PositionOf, Split, RFind;
    match SplitOnce(Trim(list), "(") {
      case None =>
      case Some((front, behind)) =>
        if ')' !in front {
          NothingClosed(front);
        }
    }
  }

  lemma {:induction false} FindIsStable(a: string, t: string, b: string)
    requires t != [] && Find(a + t, t) == Some(|a|)
    ensures Find(a + (t + b), t) == Some(|a|)
    decreases |a|
  {
    hide Find;
    if a == [] {
      FindHere(t, b);
      assert a + (t + b) == t + b;
    } else {
      NoEarlierMatch(a, t, b);
      FindAfter(a + t, t);
      FindAfter(a + (t + b), t);
      TailOf(a, t);
      TailOf(a, t + b);
      FindIsStable(a[1..], t, b);
    }
  }

  lemma TailOf(a: string, b: string)
    requires a != []
    ensures (a + b)[1..] == a[1..] + b
  {
  }

  lemma NoEarlierMatch(a: string, t: string, b: string)
    requires a != [] && t != [] && Find(a + t, t) == Some(|a|)
    ensures !(t <= a + t) && !(t <= a + (t + b))
  {
    assert (a + (t + b))[..|t|] == (a + t)[..|t|];
  }

  lemma SplitAtStart(t: string, b: string)
    ensures SplitOnce(t + b, t) == Some(("", b))
  {
    hide Find;
    FindHere(t, b);
    assert (t + b)[|t|..] == b;
  }

  lemma PartsOf(a: string, t: string, b: string)
    ensures (a + (t + b))[..|a|] == a && (a + (t + b))[|a| + |t|..] == b
  {
  }

  lemma SplitAtFirst(a: string, t: string, b: string)
    requires t != [] && Find(a + t, t) == Some(|a|)
    ensures SplitOnce(a + (t + b), t) == Some((a, b))
  {
    hide Find;
    FindIsStable(a, t, b);
    PartsOf(a, t, b);
  }

  lemma JobColumnsAre(list: string, values: string)
    requires Find(list + VALUES, VALUES) == Some(|list|)
    ensures JobColumns(INSERT_JOB + (list + (VALUES + values))) == Some(Trim(list))
  {
    hide Trim, Find, SplitOnce;
    SplitAtStart(INSERT_JOB, list + (VALUES + values));
    SplitAtFirst(list, VALUES, values);
  }

  lemma {:induction false} FindsSomewhere(a: string, t: string, b: string)
    ensures Find(a + (t + b), t).Some?
    decreases |a|
  {
    if a == [] {
      FindHere(t, b);
      assert a + (t + b) == t + b;
    } else {
      assert (a + (t + b))[1..] == a[1..] + (t + b);
      FindsSomewhere(a[1..], t, b);
    }
  }

  lemma TrimTwice(s: string)
    ensures Trim(Trim(s)) == Trim(s)
  {
    TrimmedEnds(s);
    if Trim(s) != [] {
      TrimKeeps(Trim(s));
    }
  }

  /** An INSERT of a job is located, its columns between the table and the values, only if a parenthesis
      closes there before the first one opens. */
  lemma JobIsLocatedOnlyIf(list: string, values: string)
    requires Find(list + VALUES, VALUES) == Some(|list|)
    ensures LocateJobInsert(INSERT_JOB + (list + (VALUES + values))).id.Some? ==> ClosesFirst(Trim(list))
  {
    hide Trim, Find, ColumnIndex, JobColumns, Count, ClosesFirst;
    JobColumnsAre(list, values);
    TrimTwice(list);
    ListedColumnsAreNotFound(Trim(list), "id");
  }

  /** So jobs are stored as plaintext, whether their INSERT lists columns or not. */
  lemma JobInsertStaysPlain(s: Service, draw: Draw, params: seq<Value>, sql: string, list: string, values: string)
    requires QueryMutationOf(sql) == Some(Insert("webhook_jobs"))
    requires Normalize(sql) == INSERT_JOB + (list + (VALUES + values))
    requires !ClosesFirst(Trim(list)) && Find(list + VALUES, VALUES) == Some(|list|)
    ensures LocateJobInsert(Normalize(sql)).id == None
    ensures SealedParams(s, draw, params, sql) == Some(params)
  {
    hide *;
    JobIsLocatedOnlyIf(list, values);
    UnlocatedJobStaysPlain(s, draw, params, sql);
  }

  lemma UnlocatedJobStaysPlain(s: Service, draw: Draw, params: seq<Value>, sql: string)
    requires QueryMutationOf(sql) == Some(Insert("webhook_jobs")) && LocateJobInsert(Normalize(sql)).id == None
    ensures SealedParams(s, draw, params, sql) == Some(params)
  {
    hide Find, LocateJobInsert, QueryMutationOf, Normalize, Sealed, SealedUpdate;
  }

  lemma UsualListsDoNotCloseFirst(list: string)
    requires list == [] || list[0] == '('
    ensures !ClosesFirst(list)
  {
    if list != [] {
      assert list == "(" + list[1..];
      FindHere("(", list[1..]);
    }
  }

  /** For example without a list, or with one that starts with its opening parenthesis. */
  lemma UsualJobInsertStaysPlain(s: Service, draw: Draw, params: seq<Value>, sql: string, list: string, values: string)
    requires QueryMutationOf(sql) == Some(Insert("webhook_jobs"))
    requires Normalize(sql) == INSERT_JOB + (list + (VALUES + values)) && Find(list + VALUES, VALUES) == Some(|list|)
    requires Trim(list) == [] || Trim(list)[0] == '('
    ensures SealedParams(s, draw, params, sql) == Some(params)
  {
    hide *;
    UsualListsDoNotCloseFirst(Trim(list));
    JobInsertStaysPlain(s, draw, params, sql, list, values);
  }

  /** Before the list's first parenthesis opens, its last closing one ends the names. */
  lemma NamesAreCut(names: seq<string>, x: string, y: string)
    requires names != [] && (forall i | 0 <= i < |names| :: ',' !in names[i] && '(' !in names[i])
    requires '(' !in x && ')' !in x
    ensures var front := Join(names, ',') + (")" + x);
            SplitOnce(front + ("(" + y), "(") == Some((front, y)) && RFind(front, ")") == Some(|Join(names, ',')|)
  {
    hide Find, RFind;
    var joined := Join(names, ',');
    JoinedWithout(names, '(');
    SplitOnceAt(joined + (")" + x), "(", y);
    NothingClosed(x);
    ClosedAtFront(x);
    RFindBehind(joined, ")" + x, ")");
  }

  lemma ClosedAtFront(x: string)
    requires RFind(x, ")") == None
    ensures RFind(")" + x, ")") == Some(0)
  {
    assert (")" + x)[1..] == x;
  }

  lemma {:induction false} JoinedWithout(names: seq<string>, c: char)
    requires names != [] && c != ',' && forall i | 0 <= i < |names| :: c !in names[i]
    ensures c !in Join(names, ',')
  {
    if |names| > 1 {
      JoinedWithout(names[1..], c);
    }
  }

  /** The first of the names that is the target, blanks around it aside. */
  ghost predicate IsFirstName(names: seq<string>, target: string, i: nat) {
    i < |names| && Trim(names[i]) == target && forall j | 0 <= j < i :: Trim(names[j]) != target
  }

  lemma {:induction false} PositionExactly(names: seq<string>, target: string)
    ensures match PositionOf(names, target)
            case Some(i) => IsFirstName(names, target, i)
            case None => forall j | 0 <= j < |names| :: Trim(names[j]) != target
  {
    hide Trim;
    if names != [] {
      PositionExactly(names[1..], target);
      assert forall j | 1 <= j < |names| :: names[j] == names[1..][j - 1];
    }
  }

  /** In a list that closes before it opens, a column is found at its first name. */
  lemma ClosedListIsSearched(names: seq<string>, x: string, y: string, target: string, i: nat)
    requires names != [] && (forall k | 0 <= k < |names| :: ',' !in names[k] && '(' !in names[k])
    requires '(' !in x && ')' !in x && IsFirstName(names, target, i)
    requires var list := Join(names, ',') + (")" + x) + ("(" + y); Trim(list) == list
    ensures ColumnIndex(Join(names, ',') + (")" + x) + ("(" + y), target) == Some(i)
  {
    hide Find, RFind, Trim, PositionOf;
    var front := Join(names, ',') + (")" + x);
    NamesAreCut(names, x, y);
    assert front[..|Join(names, ',')|] == Join(names, ',');
    SplitJoined(names, ',');
    PositionExactly(names, target);
  }

  /** The one kind of INSERT whose job is sealed: its column list closes before it opens. The payload is then
      sealed for the id, and read back from the row. */
  lemma OddJobInsertIsSealed(s: Service, draw: Draw, params: seq<Value>, sql: string, names: seq<string>, x: string, y: string,
                             values: string, id: nat, value: nat, row: DbRow)
    requires Ideal(s) && row.encryption == Some(s) && QueryMutationOf(sql) == Some(Insert("webhook_jobs"))
    requires names != [] && (forall k | 0 <= k < |names| :: ',' !in names[k] && '(' !in names[k])
    requires '(' !in x && ')' !in x && IsFirstName(names, "id", id) && IsFirstName(names, "payload_json", value)
    requires var list := Join(names, ',') + (")" + x) + ("(" + y);
             && Trim(list) == list && values != [] && Find(list + VALUES, VALUES) == Some(|list|)
             && Normalize(sql) == INSERT_JOB + (list + (VALUES + values))
    requires value < |params| && params[value].Text? && !(ENVELOPE_PREFIX <= params[value].text)
    requires id < |params| && ValueAsStr(params[id]) == Some(RowId(row))
    ensures var stored := SealedParams(s, draw, params, sql);
            && stored.Some? && |stored.value| == |params|
            && (forall k | 0 <= k < |params| && k != value :: stored.value[k] == params[k])
            && stored.value[value].Text? && ENVELOPE_PREFIX <= stored.value[value].text
            && DecryptValue(row, "payload_json", stored.value[value]) == Got(params[value])
  {
    hide *;
    var list := Join(names, ',') + (")" + x) + ("(" + y);
    ClosedListIsSearched(names, x, y, "id", id);
    ClosedListIsSearched(names, x, y, "payload_json", value);
    JobIsLocatedAt(sql, list, values, id, value);
    JobIsSealedAt(s, draw, params, sql, id, value);
    JobNames();
    EncryptingTwice(s, draw(value), draw(value), "webhook_jobs", RowId(row), "payload_json", params[value].text);
    StoredIsReadBackExactly(s, draw(value), "webhook_jobs", RowId(row), "payload_json", params[value].text, row, "payload_json");
  }

  lemma JobNames()
    ensures ':' !in "webhook_jobs" && ':' !in "payload_json" && "webhook_jobs" in TablesFor("payload_json")
  {
  }

  lemma JobIsLocatedAt(sql: string, list: string, values: string, id: nat, value: nat)
    requires Normalize(sql) == INSERT_JOB + (list + (VALUES + values)) && values != [] && Trim(list) == list
    requires Find(list + VALUES, VALUES) == Some(|list|)
    requires ColumnIndex(list, "id") == Some(id) && ColumnIndex(list, "payload_json") == Some(value)
    ensures LocateJobInsert(Normalize(sql)) == Located(Some(id), Some(value))
    ensures Find(Normalize(sql), " webhook_jobs").Some?
  {
    hide Trim, Find, ColumnIndex, JobColumns, Count, SplitOnce, Normalize;
    JobColumnsAre(list, values);
    TextsOfJob(list, values);
    FindsSomewhere("insert into", " webhook_jobs", list + (VALUES + values));
    FoundBefore(INSERT_JOB + list, VALUES, values);
  }

  lemma TextsOfJob(list: string, values: string)
    ensures INSERT_JOB + (list + (VALUES + values)) == "insert into" + (" webhook_jobs" + (list + (VALUES + values)))
    ensures INSERT_JOB + (list + (VALUES + values)) == (INSERT_JOB + list) + (VALUES + values)
  {
    assert INSERT_JOB == "insert into" + " webhook_jobs";
  }

  /** A text is found at the latest where it stands. */
  lemma {:induction false} FoundBefore(a: string, t: string, b: string)
    ensures Find(a + (t + b), t).Some? && Find(a + (t + b), t).value <= |a|
    decreases |a|
  {
    if a == [] {
      FindHere(t, b);
      assert a + (t + b) == t + b;
    } else {
      assert (a + (t + b))[1..] == a[1..] + (t + b);
      FoundBefore(a[1..], t, b);
    }
  }

  lemma JobIsSealedAt(s: Service, draw: Draw, params: seq<Value>, sql: string, id: nat, value: nat)
    requires QueryMutationOf(sql) == Some(Insert("webhook_jobs")) && Find(Normalize(sql), " webhook_jobs").Some?
    requires LocateJobInsert(Normalize(sql)) == Located(Some(id), Some(value))
    requires value < |params| && params[value].Text? && id < |params| && ValueAsStr(params[id]).Some?
    ensures var stored := SealedParams(s, draw, params, sql);
            && stored == Some(params[value := Text(Encrypt(s, draw(value), "webhook_jobs", ValueAsStr(params[id]).value,
                                                           "payload_json", params[value].text))])
  {
    hide Find, LocateJobInsert, QueryMutationOf, Normalize, Encrypt, ValueAsStr, SealedUpdate;
  }

  lemma WordsOfJob()
    ensures INSERT_JOB == "insert" + (" " + ("into" + (" " + "webhook_jobs")))
    ensures ' ' !in "insert" && ' ' !in "into" && ' ' !in "webhook_jobs"
    ensures "into"[0] == 'i' && "webhook_jobs"[0] == 'w' && VALUES[0] == ' ' && VALUES[1] == 'v'
  {
  }

  lemma NoValuesHere(word: string, rest: string)
    requires word != [] && word[0] != 'v'
    ensures !(VALUES <= " " + (word + rest)) && (" " + (word + rest))[1..] == word + rest
  {
    assert (" " + (word + rest))[1] == word[0] && VALUES[1] == 'v';
  }

  lemma FindPastWord(word: string, rest: string)
    requires word != [] && word[0] != 'v' && ' ' !in word
    ensures Find(" " + (word + rest), VALUES)
            == match Find(rest, VALUES) case Some(i) => Some(1 + |word| + i) case None => None
  {
    hide Find;
    assert VALUES[0] == ' ';
    NoValuesHere(word, rest);
    FindAfter(" " + (word + rest), VALUES);
    FindSkips(word, rest, VALUES);
  }

  lemma FindBehindJob(rest: string)
    ensures Find(INSERT_JOB + rest, VALUES)
            == match Find(rest, VALUES) case Some(i) => Some(24 + i) case None => None
    ensures |INSERT_JOB| == 24
  {
    hide Find;
    WordsOfJob();
    WordLengths();
    FiveWords("insert", " ", "into", "webhook_jobs", rest);
    FindSkips("insert", " " + ("into" + (" " + ("webhook_jobs" + rest))), VALUES);
    FindPastWord("into", " " + ("webhook_jobs" + rest));
    FindPastWord("webhook_jobs", rest);
  }

  lemma WordLengths()
    ensures |"insert"| == 6 && |"into"| == 4 && |"webhook_jobs"| == 12
  {
  }

  lemma FiveWords(a: string, blank: string, b: string, c: string, rest: string)
    ensures (a + (blank + (b + (blank + c)))) + rest == a + (blank + (b + (blank + (c + rest))))
  {
  }

  /** Without a payload among the names, the last placeholder is taken for it. */
  lemma LastPlaceholderIsTaken(list: string, values: string, id: nat)
    requires values != [] && Trim(list) == list && Find(list + VALUES, VALUES) == Some(|list|)
    requires ColumnIndex(list, "id") == Some(id) && ColumnIndex(list, "payload_json") == None
    ensures var n := Count(values, '?');
            LocateJobInsert(INSERT_JOB + (list + (VALUES + values))) == Located(Some(id), Some(if n == 0 then 0 else n - 1))
  {
    hide Trim, Find, ColumnIndex, JobColumns, Count, SplitOnce, LocateJobInsert;
    JobColumnsAre(list, values);
    FindIsStable(list, VALUES, values);
    FindBehindJob(list + (VALUES + values));
    ValuesBehind(list, values);
    LocatedByLast(INSERT_JOB + (list + (VALUES + values)), 24 + |list|, list, values, id);
  }

  lemma ValuesBehind(list: string, values: string)
    requires |INSERT_JOB| == 24
    ensures var sql := INSERT_JOB + (list + (VALUES + values));
            24 + |list| + |VALUES| <= |sql| && sql[24 + |list| + |VALUES|..] == values
  {
  }

  lemma LocatedByLast(sql: string, start: nat, list: string, values: string, id: nat)
    requires Find(sql, VALUES) == Some(start) && JobColumns(sql) == Some(list)
    requires start + |VALUES| < |sql| && sql[start + |VALUES|..] == values
    requires ColumnIndex(list, "id") == Some(id) && ColumnIndex(list, "payload_json") == None
    ensures var n := Count(values, '?'); LocateJobInsert(sql) == Located(Some(id), Some(if n == 0 then 0 else n - 1))
  {
    hide Find, ColumnIndex, JobColumns, Count;
  }

  /** Without `into`, the first parameter is taken for the id and the second for the payload. */
  lemma JobWithoutIntoIsSealed(s: Service, draw: Draw, params: seq<Value>, sql: string)
    requires QueryMutationOf(sql) == Some(Insert("webhook_jobs"))
    requires var n := Normalize(sql);
             Find(n, VALUES).Some? && Find(n, INSERT_JOB).None? && Find(n, " webhook_jobs").Some?
    requires |params| > 1 && params[1].Text? && ValueAsStr(params[0]).Some?
    ensures SealedParams(s, draw, params, sql)
            == Some(params[1 := Text(Encrypt(s, draw(1), "webhook_jobs", ValueAsStr(params[0]).value, "payload_json", params[1].text))])
  {
    hide *;
    LocatedWithoutInto(Normalize(sql));
    JobIsSealedAt(s, draw, params, sql, 0, 1);
  }

  lemma LocatedWithoutInto(n: string)
    requires Find(n, VALUES).Some? && Find(n, INSERT_JOB).None?
    ensures LocateJobInsert(n) == Located(Some(0), Some(1))
  {
    hide Find;
  }

  // ----- Ids as text

  /** The number a decimal text means. */
  function NumberOf(s: string): int {
    if s != [] && s[0] == '-' then -NaturalOf(s[1..]) else NaturalOf(s)
  }

  function NaturalOf(s: string): int {
    if s == [] then 0 else 10 * NaturalOf(s[..|s| - 1]) + (s[|s| - 1] as int - '0' as int)
  }

  lemma {:induction false} DigitsMean(n: nat)
    ensures NaturalOf(Digits(n)) == n && Digits(n) != [] && '0' <= Digits(n)[0] <= '9'
  {
    if n >= 10 {
      DigitsMean(n / 10);
      assert Digits(n)[..|Digits(n)| - 1] == Digits(n / 10);
    } else {
      assert Digits(n)[..|Digits(n)| - 1] == [];
    }
  }

  /** An id is a text or a number, and a number is written in decimal; nothing else is an id. */
  lemma IdIsItsText(v: Value)
    ensures v.Text? ==> ValueAsStr(v) == Some(v.text)
    ensures v.Integer? ==> ValueAsStr(v).Some? && NumberOf(ValueAsStr(v).value) == v.i
    ensures v.Integer? ==> ValueAsStr(v).value != [] && (ValueAsStr(v).value[0] == '-' <==> v.i < 0)
    ensures !v.Text? && !v.Integer? ==> ValueAsStr(v) == None
  {
    if v.Integer? {
      var n := if v.i < 0 then -v.i else v.i;
      DigitsMean(n);
      assert ("-" + Digits(n))[1..] == Digits(n);
    }
  }

  // ----- Rows without an id column

  /** A query for one row by its id finds that id in its first parameter, if no placeholder stands
      before. */
  lemma HintIsTheRow(sql: string, before: string, rest: string, params: seq<Value>)
    requires Normalize(sql) == before + (" where id = ?" + rest) && '?' !in before
    requires params != []
    ensures Count(before + " where id = ", '?') == 0 && RowIdHint(sql, params) == ValueAsStr(params[0])
  {
    hide Find, Normalize, ValueAsStr;
    FindsSomewhere(before, " where id = ?", rest);
    CountConcat(before, " where id = ", '?');
    CountNone(before, '?');
    CountNone(" where id = ", '?');
  }
}
