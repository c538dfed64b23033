/**
 Finding the parameters of an UPDATE, src/db/encryption.rs: which placeholder is the value of a column
 and which is the row's id. A parameter's index is the number of placeholders before its own.
 */
module Placeholders {
  import opened Wrappers
  import opened Text
  import opened Sql

  const SET := " set "
  const WHERE := " where "

  /** `rfind`. */
  function RFind(s: string, t: string): (r: Option<nat>)
    ensures r.Some? ==> r.value + |t| <= |s|
  {
    if s == [] then if t == [] then Some(0) else None
    else
      match RFind(s[1..], t)
      case Some(i) => Some(i + 1)
      case None => if t <= s then Some(0) else None
  }

  /** The column an assignment sets. */
  function Left(assignment: string): string { Trim(Split(assignment, '=')[0]) }

  datatype Scanned = Scanned(value: Option<nat>, total: nat)

  /** The assignments one after the other, with the placeholders counted so far. */
  function Scan(assignments: seq<string>, column: string, acc: Scanned): Scanned
    decreases assignments
  {
    if assignments == [] then acc
    else
      Scan(assignments[1..], column,
           Scanned(if Left(assignments[0]) == column then Some(acc.total) else acc.value,
                   acc.total + Count(assignments[0], '?')))
  }

  predicate NamesId(tokens: seq<string>) {
    exists i | 0 <= i < |tokens| - 1 :: tokens[i] == "id" && "=" <= TrimStart(tokens[i + 1])
  }

  datatype Located = Located(id: Option<nat>, value: Option<nat>)

  const NOWHERE := Located(None, None)

  function LocateIn(setClause: string, whereClause: string, column: string): Located {
    var scanned := Scan(Split(setClause, ','), column, Scanned(None, 0));
    if scanned.value.None? then NOWHERE
    else Located(if NamesId(Words(whereClause)) then Some(scanned.total) else None, scanned.value)
  }

  /** `locate_update_indices`. There is no result when the two keywords overlap: slicing panics. */
  function LocateUpdate(sql: string, column: string): Option<Located> {
    match Find(sql, SET)
    case None => Some(NOWHERE)
    case Some(a) =>
      match RFind(sql, WHERE)
      case None => Some(NOWHERE)
      case Some(b) => if a + |SET| > b then None else Some(LocateIn(sql[a + |SET|..b], sql[b + |WHERE|..], column))
  }

  method LocateUpdateIndices(sql: string, column: string) returns (r: Option<Located>)
    ensures r == LocateUpdate(sql, column)
  {
    hide Find, RFind, Split, Left, Words, NamesId;
    var setStart := Find(sql, SET);
    if setStart.None? {
      return Some(NOWHERE);
    }
    var whereStart := RFind(sql, WHERE);
    if whereStart.None? {
      return Some(NOWHERE);
    }
    if setStart.value + |SET| > whereStart.value {
      return None;
    }
    var setClause, whereClause := sql[setStart.value + |SET|..whereStart.value], sql[whereStart.value + |WHERE|..];
    var assignments := Split(setClause, ',');
    var value: Option<nat> := None;
    var before: nat := 0;
    for k := 0 to |assignments|
      invariant Scan(assignments, column, Scanned(None, 0)) == Scan(assignments[k..], column, Scanned(value, before))
    {
      assert assignments[k..][1..] == assignments[k + 1..];
      if Left(assignments[k]) == column {
        value := Some(before);
      }
      before := before + Count(assignments[k], '?');
    }
    if value.None? {
      return Some(NOWHERE);
    }
    var hasId := NamesId(Words(whereClause));
    r := Some(Located(if hasId then Some(before) else None, value));
  }

  // ----- Statements of the handled shape

  function UpdateText(table: string, assignments: seq<string>, whereClause: string): string
    requires assignments != []
  {
    "update" + (" " + (table + (SET + (Join(assignments, ',') + (WHERE + whereClause)))))
  }

  ghost predicate IsShape(table: string, assignments: seq<string>, whereClause: string) {
    && ' ' !in table && table != "set"
    && assignments != [] && (forall i | 0 <= i < |assignments| :: ',' !in assignments[i])
    && RFind("where " + whereClause, WHERE) == None
  }

  /** A name is not taken for the keyword it stands before. */
  lemma NameIsNoKeyword(table: string, rest: string)
    requires ' ' !in table && table != "set"
    ensures !(SET <= " " + (table + (SET + rest)))
  {
    var s := " " + (table + (SET + rest));
    assert s[1 + |table|] == ' ' && forall i | 0 <= i < |table| :: s[1 + i] == table[i];
    assert |table| == 3 && s[1] == 's' && s[2] == 'e' && s[3] == 't' ==> table == "set";
    if |table| > 3 {
      assert table[3] in table;
    }
  }

  lemma FindSet(table: string, rest: string)
    requires ' ' !in table && table != "set"
    ensures Find("update" + (" " + (table + (SET + rest))), SET) == Some(|"update"| + 1 + |table|)
  {
    hide Find;
    var behind := table + (SET + rest);
    FindSkips("update", " " + behind, SET);
    NameIsNoKeyword(table, rest);
    FindAfter(" " + behind, SET);
    assert (" " + behind)[1..] == behind;
    FindSkips(table, SET + rest, SET);
    FindHere(SET, rest);
  }

  lemma {:induction false} RFindBehind(a: string, s: string, t: string)
    requires RFind(s, t).Some?
    ensures RFind(a + s, t) == Some(|a| + RFind(s, t).value)
  {
    if a == [] {
      assert a + s == s;
    } else {
      assert (a + s)[1..] == a[1..] + s;
      RFindBehind(a[1..], s, t);
    }
  }

  lemma RFindWhere(whereClause: string)
    requires RFind("where " + whereClause, WHERE) == None
    ensures RFind(WHERE + whereClause, WHERE) == Some(0)
  {
    assert (WHERE + whereClause)[1..] == "where " + whereClause;
  }

  /** The two clauses are cut out where they stand. */
  lemma ClausesAreFound(table: string, assignments: seq<string>, whereClause: string, column: string)
    requires IsShape(table, assignments, whereClause)
    ensures LocateUpdate(UpdateText(table, assignments, whereClause), column)
            == Some(LocateIn(Join(assignments, ','), whereClause, column))
  {
    hide Find, RFind, LocateIn, Join;
    var sets := Join(assignments, ',');
    var sql := UpdateText(table, assignments, whereClause);
    FindSet(table, sets + (WHERE + whereClause));
    var front := "update" + (" " + (table + (SET + sets)));
    assert sql == front + (WHERE + whereClause);
    RFindWhere(whereClause);
    RFindBehind(front, WHERE + whereClause, WHERE);
    var a := |"update"| + 1 + |table|;
    assert sql[a + |SET|..|front|] == sets;
    assert sql[|front| + |WHERE|..] == whereClause;
  }

  // ----- The scan

  function Total(assignments: seq<string>): nat {
    if assignments == [] then 0 else Count(assignments[0], '?') + Total(assignments[1..])
  }

  lemma {:induction false} ScanCounts(assignments: seq<string>, column: string, acc: Scanned)
    ensures Scan(assignments, column, acc).total == acc.total + Total(assignments)
    decreases assignments
  {
    hide Left;
    if assignments != [] {
      ScanCounts(assignments[1..], column,
                 Scanned(if Left(assignments[0]) == column then Some(acc.total) else acc.value,
                         acc.total + Count(assignments[0], '?')));
    }
  }

  /** The last assignment to the column is the one located. */
  ghost predicate IsLast(assignments: seq<string>, column: string, k: nat) {
    && k < |assignments| && Left(assignments[k]) == column
    && forall j | k < j < |assignments| :: Left(assignments[j]) != column
  }

  lemma {:induction false} ScanSkips(assignments: seq<string>, column: string, acc: Scanned)
    requires forall j | 0 <= j < |assignments| :: Left(assignments[j]) != column
    ensures Scan(assignments, column, acc).value == acc.value
    decreases assignments
  {
    hide Left;
    if assignments != [] {
      ScanSkips(assignments[1..], column, Scanned(acc.value, acc.total + Count(assignments[0], '?')));
    }
  }

  lemma {:induction false} ScanFinds(assignments: seq<string>, column: string, acc: Scanned, k: nat)
    requires IsLast(assignments, column, k)
    ensures Scan(assignments, column, acc).value == Some(acc.total + Total(assignments[..k]))
    decreases assignments
  {
    hide Left;
    var next := Scanned(if Left(assignments[0]) == column then Some(acc.total) else acc.value,
                        acc.total + Count(assignments[0], '?'));
    if k == 0 {
      ScanSkips(assignments[1..], column, next);
      assert assignments[..0] == [];
    } else {
      ScanFinds(assignments[1..], column, next, k - 1);
      assert assignments[..k][1..] == assignments[1..][..k - 1];
    }
  }

  lemma LocatedExactly(assignments: seq<string>, whereClause: string, column: string, k: nat)
    requires assignments != [] && (forall i | 0 <= i < |assignments| :: ',' !in assignments[i])
    requires IsLast(assignments, column, k)
    ensures LocateIn(Join(assignments, ','), whereClause, column)
            == Located(if NamesId(Words(whereClause)) then Some(Total(assignments)) else None, Some(Total(assignments[..k])))
  {
    hide Join, Split, Left, NamesId, Scan;
    SplitJoined(assignments, ',');
    ScanCounts(assignments, column, Scanned(None, 0));
    ScanFinds(assignments, column, Scanned(None, 0), k);
  }

  // ----- Against the statement's own placeholders

  lemma {:induction false} CountJoined(assignments: seq<string>)
    requires assignments != []
    ensures Count(Join(assignments, ','), '?') == Total(assignments)
  {
    if |assignments| == 1 {
      assert Total(assignments[1..]) == 0;
    } else {
      CountJoined(assignments[1..]);
      var rest := Join(assignments[1..], ',');
      CountConcat(assignments[0], "," + rest, '?');
      CountConcat(",", rest, '?');
      assert Count(",", '?') == 0;
    }
  }

  /** The text of the clause up to assignment `k`. */
  function UpTo(assignments: seq<string>, k: nat): string
    requires k < |assignments|
  {
    if k == 0 then [] else Join(assignments[..k], ',') + ","
  }

  lemma UpToUnfolds(assignments: seq<string>, k: nat)
    requires 0 < k < |assignments|
    ensures UpTo(assignments, k) == assignments[0] + ("," + UpTo(assignments[1..], k - 1))
  {
    assert assignments[..k][1..] == assignments[1..][..k - 1];
    if k > 1 {
      var rest := Join(assignments[..k][1..], ',');
      assert assignments[0] + ([','] + rest) + "," == assignments[0] + ("," + (rest + ","));
    }
  }

  lemma PrefixBehind(a: string, up: string, last: string, whole: string)
    requires up + last <= whole
    ensures (a + ("," + up)) + last <= a + ([','] + whole)
  {
    var tail := whole[|up + last|..];
    assert whole == up + last + tail;
    assert a + ([','] + whole) == ((a + ("," + up)) + last) + tail;
  }

  lemma {:induction false} JoinStartsWith(assignments: seq<string>, k: nat)
    requires k < |assignments|
    ensures UpTo(assignments, k) + assignments[k] <= Join(assignments, ',')
  {
    if k == 0 {
      assert [] + assignments[0] == assignments[0];
    } else {
      hide UpTo;
      JoinStartsWith(assignments[1..], k - 1);
      UpToUnfolds(assignments, k);
      PrefixBehind(assignments[0], UpTo(assignments[1..], k - 1), assignments[k], Join(assignments[1..], ','));
    }
  }

  lemma CountUpTo(assignments: seq<string>, k: nat)
    requires k < |assignments|
    ensures Count(UpTo(assignments, k), '?') == Total(assignments[..k])
  {
    if k > 0 {
      CountJoined(assignments[..k]);
      CountConcat(Join(assignments[..k], ','), ",", '?');
      assert Count(",", '?') == 0;
    } else {
      assert assignments[..0] == [];
    }
  }

  /** The statement up to the right-hand side of assignment `k`. */
  function BeforeValue(table: string, assignments: seq<string>, k: nat, left: string): string
    requires k < |assignments|
  {
    "update" + (" " + (table + (SET + (UpTo(assignments, k) + (left + "=")))))
  }

  /** The statement up to its where clause. */
  function BeforeWhere(table: string, assignments: seq<string>): string
    requires assignments != []
  {
    "update" + (" " + (table + (SET + (Join(assignments, ',') + WHERE))))
  }

  lemma FrontHasNone(table: string, rest: string)
    requires '?' !in table
    ensures Count("update" + (" " + (table + (SET + rest))), '?') == Count(rest, '?')
  {
    CountNone("update", '?');
    CountNone(" ", '?');
    CountNone(table, '?');
    CountNone(SET, '?');
    hide Count;
    CountConcat("update", " " + (table + (SET + rest)), '?');
    CountConcat(" ", table + (SET + rest), '?');
    CountConcat(table, SET + rest, '?');
    CountConcat(SET, rest, '?');
  }

  lemma BeforeValueCounts(table: string, assignments: seq<string>, k: nat, left: string)
    requires '?' !in table && '?' !in left && k < |assignments|
    ensures Count(BeforeValue(table, assignments, k, left), '?') == Total(assignments[..k])
  {
    CountNone(left, '?');
    CountNone("=", '?');
    hide Count, Total;
    FrontHasNone(table, UpTo(assignments, k) + (left + "="));
    CountConcat(UpTo(assignments, k), left + "=", '?');
    CountConcat(left, "=", '?');
    CountUpTo(assignments, k);
  }

  lemma BeforeWhereCounts(table: string, assignments: seq<string>)
    requires '?' !in table && assignments != []
    ensures Count(BeforeWhere(table, assignments), '?') == Total(assignments)
  {
    CountNone(WHERE, '?');
    hide Count, Total, Join;
    FrontHasNone(table, Join(assignments, ',') + WHERE);
    CountConcat(Join(assignments, ','), WHERE, '?');
    CountJoined(assignments);
  }

  lemma LeftOf(left: string, right: string)
    requires '=' !in left
    ensures Left(left + ("=" + right)) == Trim(left)
  {
    SplitFirst(left, '=', right);
    assert ['='] == "=";
  }

  lemma ClauseBeforeValue(assignments: seq<string>, k: nat, left: string, right: string) returns (tail: string)
    requires k < |assignments| && assignments[k] == left + ("=" + right)
    ensures Join(assignments, ',') == UpTo(assignments, k) + (left + "=") + tail
  {
    hide Join, UpTo;
    JoinStartsWith(assignments, k);
    var up, sets := UpTo(assignments, k), Join(assignments, ',');
    var behind := sets[|up + assignments[k]|..];
    assert sets == up + assignments[k] + behind;
    tail := right + behind;
    FiveTexts(up, left, "=", right, behind);
  }

  lemma FiveTexts(a: string, b: string, c: string, d: string, e: string)
    ensures a + (b + (c + d)) + e == a + (b + c) + (d + e)
  {
  }

  lemma SixTexts(a: string, b: string, c: string, d: string, e: string, f: string)
    ensures a + (b + (c + (d + (e + f)))) == (a + (b + (c + (d + e)))) + f
    ensures a + (b + (c + (d + e))) <= a + (b + (c + (d + (e + f))))
  {
  }

  lemma ThreeTexts(a: string, b: string, c: string)
    ensures (a + b) + c == a + (b + c)
  {
  }

  /** Both texts are where they claim to be. */
  lemma BeforeTextsArePrefixes(table: string, assignments: seq<string>, whereClause: string, k: nat,
                               left: string, right: string)
    requires k < |assignments| && assignments[k] == left + ("=" + right)
    ensures BeforeValue(table, assignments, k, left) <= UpdateText(table, assignments, whereClause)
    ensures BeforeWhere(table, assignments) + whereClause == UpdateText(table, assignments, whereClause)
  {
    hide Join, UpTo;
    var tail := ClauseBeforeValue(assignments, k, left, right);
    var before := UpTo(assignments, k) + (left + "=");
    ThreeTexts(before, tail, WHERE + whereClause);
    SixTexts("update", " ", table, SET, before, tail + (WHERE + whereClause));
    ThreeTexts(Join(assignments, ','), WHERE, whereClause);
    SixTexts("update", " ", table, SET, Join(assignments, ',') + WHERE, whereClause);
  }

  /** The located indices are the placeholders' own: the value's is the number of placeholders before
      the assignment's right-hand side, and the id's the number of those before the where clause. */
  lemma UpdateIsLocatedExactly(table: string, assignments: seq<string>, whereClause: string, column: string,
                               k: nat, left: string, right: string)
    requires IsShape(table, assignments, whereClause) && IsLast(assignments, column, k)
    requires assignments[k] == left + ("=" + right) && '=' !in left && '?' !in left && '?' !in table
    ensures LocateUpdate(UpdateText(table, assignments, whereClause), column)
            == Some(Located(
                 if NamesId(Words(whereClause)) then Some(Count(BeforeWhere(table, assignments), '?')) else None,
                 Some(Count(BeforeValue(table, assignments, k, left), '?'))))
    ensures BeforeValue(table, assignments, k, left) <= UpdateText(table, assignments, whereClause)
    ensures BeforeWhere(table, assignments) + whereClause == UpdateText(table, assignments, whereClause)
  {
    hide Join, Left, NamesId, Count, Total, BeforeValue, BeforeWhere, UpdateText, LocateUpdate, LocateIn;
    ClausesAreFound(table, assignments, whereClause, column);
    LocatedExactly(assignments, whereClause, column, k);
    BeforeValueCounts(table, assignments, k, left);
    BeforeWhereCounts(table, assignments);
    BeforeTextsArePrefixes(table, assignments, whereClause, k, left, right);
  }

  /** `id = ?` at the front of the where clause is seen. */
  lemma IdIsSeen(rest: string)
    ensures NamesId(Words("id" + (" " + ("=" + (" " + rest)))))
  {
    assert IsWord("id") && IsWord("=");
    hide Words;
    FirstWord("id", " " + ("=" + (" " + rest)));
    BlankSeparates("=" + (" " + rest));
    FirstWord("=", " " + rest);
    var tokens := Words("id" + (" " + ("=" + (" " + rest))));
    assert tokens[0] == "id" && tokens[1] == "=" && TrimStart("=") == "=";
  }

  /** The id is not looked for further than the word `id` right before a word that begins with an equals
      sign: other conditions locate none, and neither does `id in`. */
  lemma OtherConditionsNameNoId(tokens: seq<string>)
    requires forall i | 0 <= i < |tokens| - 1 && tokens[i] == "id" ::
               tokens[i + 1] == [] || (tokens[i + 1][0] != '=' && !IsWhitespace(tokens[i + 1][0]))
    ensures !NamesId(tokens)
  {
    forall i | 0 <= i < |tokens| - 1 && tokens[i] == "id"
      ensures !("=" <= TrimStart(tokens[i + 1]))
    {
      var next := tokens[i + 1];
      assert TrimStart(next) == next;
    }
  }

  /** The id's own placeholder, behind `before`, is the one located if and only if none stands before it
      in the where clause. So `account_id = ? and id = ?` takes the account for the row. */
  lemma IdIsRightExactly(table: string, assignments: seq<string>, before: string, rest: string, column: string,
                         k: nat, left: string, right: string)
    requires IsShape(table, assignments, before + rest) && IsLast(assignments, column, k)
    requires assignments[k] == left + ("=" + right) && '=' !in left && '?' !in left && '?' !in table
    requires NamesId(Words(before + rest))
    ensures LocateUpdate(UpdateText(table, assignments, before + rest), column).Some?
    ensures LocateUpdate(UpdateText(table, assignments, before + rest), column).value.id
            == Some(Count(BeforeWhere(table, assignments) + before, '?'))
            <==> '?' !in before
  {
    hide *;
    ShapeAssigns(table, assignments, before + rest);
    CountBehind(BeforeWhere(table, assignments), before);
    UpdateIsLocatedExactly(table, assignments, before + rest, column, k, left, right);
  }

  lemma ShapeAssigns(table: string, assignments: seq<string>, whereClause: string)
    requires IsShape(table, assignments, whereClause)
    ensures assignments != []
  {
  }

  lemma CountBehind(a: string, b: string)
    ensures Count(a + b, '?') == Count(a, '?') <==> '?' !in b
  {
    CountConcat(a, b, '?');
    CountNone(b, '?');
  }

  /** No assignment from `k` on takes a parameter. */
  ghost predicate NoneFrom(assignments: seq<string>, k: nat) {
    forall j | k <= j < |assignments| :: '?' !in assignments[j]
  }

  lemma {:induction false} TotalStays(assignments: seq<string>, k: nat, m: nat)
    requires k <= m <= |assignments| && forall j | k <= j < m :: '?' !in assignments[j]
    ensures Total(assignments[..m]) == Total(assignments[..k])
    decreases m
  {
    hide Total, Count;
    if k < m {
      TotalStays(assignments, k, m - 1);
      TotalOneMore(assignments, m - 1);
      CountNone(assignments[m - 1], '?');
    }
  }

  lemma TotalIsReachedExactly(assignments: seq<string>, k: nat)
    requires k <= |assignments|
    ensures Total(assignments[..k]) == Total(assignments) <==> NoneFrom(assignments, k)
  {
    hide Total, Count;
    assert assignments[..|assignments|] == assignments;
    if j: nat :| k <= j < |assignments| && '?' in assignments[j] {
      TotalNeverFalls(assignments, k, j);
      TotalsIncrease(assignments, j, |assignments|);
    } else {
      TotalStays(assignments, k, |assignments|);
    }
  }

  lemma {:induction false} TotalNeverFalls(assignments: seq<string>, k: nat, j: nat)
    requires k <= j <= |assignments|
    ensures Total(assignments[..k]) <= Total(assignments[..j])
    decreases j
  {
    hide Total, Count;
    if k < j {
      TotalNeverFalls(assignments, k, j - 1);
      TotalOneMore(assignments, j - 1);
    }
  }

  /** The first assignment from `k` on that takes a parameter. */
  ghost predicate IsNext(assignments: seq<string>, k: nat, m: nat) {
    k <= m < |assignments| && '?' in assignments[m] && forall j | k <= j < m :: '?' !in assignments[j]
  }

  lemma NextTotals(assignments: seq<string>, k: nat)
    requires k <= |assignments|
    ensures forall m: nat | IsNext(assignments, k, m) ::
              Total(assignments[..m]) == Total(assignments[..k]) < Total(assignments[..m + 1])
  {
    hide Total, Count;
    forall m: nat | IsNext(assignments, k, m)
      ensures Total(assignments[..m]) == Total(assignments[..k]) < Total(assignments[..m + 1])
    {
      TotalStays(assignments, k, m);
      TotalsIncrease(assignments, m, m + 1);
    }
  }

  lemma OwnTotals(assignments: seq<string>, k: nat)
    requires k < |assignments|
    ensures Total(assignments[..k]) < Total(assignments[..k + 1]) <==> '?' in assignments[k]
  {
    hide Total, Count;
    CountNone(assignments[k], '?');
    TotalOneMore(assignments, k);
  }

  lemma IsAssignment(assignments: seq<string>, column: string, k: nat)
    requires IsLast(assignments, column, k)
    ensures k < |assignments|
  {
  }

  lemma LocatedInUpdate(table: string, assignments: seq<string>, whereClause: string, column: string, k: nat)
    requires IsShape(table, assignments, whereClause) && IsLast(assignments, column, k)
    ensures assignments != []
    ensures LocateUpdate(UpdateText(table, assignments, whereClause), column)
            == Some(Located(if NamesId(Words(whereClause)) then Some(Total(assignments)) else None,
                            Some(Total(assignments[..k]))))
  {
    hide Join, Left, NamesId, LocateUpdate, LocateIn, UpdateText, Total, Words;
    ClausesAreFound(table, assignments, whereClause, column);
    LocatedExactly(assignments, whereClause, column, k);
  }

  /** The placeholder located for a column is one of its own assignment if and only if the assignment has
      one. A column that is set to a literal is given the next placeholder of the statement: that of a later
      assignment or, if and only if none has one, the first of the where clause, which is taken for the
      id. */
  lemma LiteralTakesTheNextPlaceholder(table: string, assignments: seq<string>, whereClause: string, column: string, k: nat)
    requires IsShape(table, assignments, whereClause) && IsLast(assignments, column, k)
    ensures var r := LocateUpdate(UpdateText(table, assignments, whereClause), column);
            && r.Some? && r.value.value.Some?
            && (Total(assignments[..k]) <= r.value.value.value < Total(assignments[..k + 1]) <==> '?' in assignments[k])
            && (forall m: nat | IsNext(assignments, k, m) ::
                  Total(assignments[..m]) == r.value.value.value < Total(assignments[..m + 1]))
            && (r.value.value.value == Total(assignments) <==> NoneFrom(assignments, k))
            && r.value.id == if NamesId(Words(whereClause)) then Some(Total(assignments)) else None
  {
    hide *;
    IsAssignment(assignments, column, k);
    OwnTotals(assignments, k);
    TotalIsReachedExactly(assignments, k);
    NextTotals(assignments, k);
    LocatedInUpdate(table, assignments, whereClause, column, k);
  }

  lemma {:induction false} TotalOneMore(assignments: seq<string>, k: nat)
    requires k < |assignments|
    ensures Total(assignments[..k + 1]) == Total(assignments[..k]) + Count(assignments[k], '?')
  {
    hide Count;
    if k == 0 {
      assert assignments[..1] == [assignments[0]] && assignments[..0] == [];
      assert Total([assignments[0]]) == Count(assignments[0], '?') + Total([]);
    } else {
      TotalOneMore(assignments[1..], k - 1);
      assert assignments[..k + 1][1..] == assignments[1..][..k] && assignments[..k][1..] == assignments[1..][..k - 1];
    }
  }

  /** Later assignments have later placeholders, and the id comes after all of them. */
  lemma {:induction false} TotalsIncrease(assignments: seq<string>, j: nat, k: nat)
    requires j < k <= |assignments| && '?' in assignments[j]
    ensures Total(assignments[..j]) < Total(assignments[..k])
    decreases k
  {
    hide Count, Total;
    TotalOneMore(assignments, k - 1);
    if j < k - 1 {
      TotalsIncrease(assignments, j, k - 1);
    } else {
      CountNone(assignments[j], '?');
    }
  }
}
