/**
 The classification of SQL statements in src/db/mutation.rs, and the refusal of writes on a standby in
 src/db/executor.rs.
 */
module Mutation {
  import opened Wrappers
  import opened Text
  import opened Sql

  datatype QueryMutation =
    | Insert(table: string) | Update(table: string) | Delete(table: string) | Replaced(table: string)
    | Create(target: string) | Alter(target: string) | Drop(target: string)
    | Vacuum | Truncate(target: string) | Attach | Detach | Pragma | ReadOnly

  function ParseInsert(tokens: seq<string>): Option<QueryMutation> {
    if tokens == [] then None
    else
      var rest := if tokens[0] == "or" then tokens[1..] else tokens;
      if rest == [] then None
      else if rest[0] == "into" then if |rest| > 1 then Some(Insert(rest[1])) else None
      else Some(Insert(rest[0]))
  }

  function ParseReplace(tokens: seq<string>): Option<QueryMutation> {
    match ParseInsert(tokens)
    case Some(Insert(table)) => Some(Replaced(table))
    case other => other
  }

  function ParseUpdate(tokens: seq<string>): Option<QueryMutation> {
    if tokens == [] then None else Some(Update(tokens[0]))
  }

  function TrimQuotesStart(s: string): string {
    if s != [] && s[0] in {'"', '`', '\''} then TrimQuotesStart(s[1..]) else s
  }

  function TrimQuotesEnd(s: string): string {
    if s != [] && s[|s| - 1] in {'"', '`', '\''} then TrimQuotesEnd(s[..|s| - 1]) else s
  }

  function ParseSchema(token: string, tokens: seq<string>): Option<QueryMutation> {
    if tokens == [] then None
    else
      var target := TrimQuotesEnd(TrimQuotesStart(tokens[0]));
      Some(if token == "create" then Create(target)
           else if token == "alter" then Alter(target)
           else if token == "drop" then Drop(target)
           else if token == "truncate" then Truncate(target)
           else if token == "attach" then Attach
           else Detach)
  }

  function ParseOr(tokens: seq<string>): Option<QueryMutation> {
    if tokens == [] then None
    else if tokens[0] == "replace" then ParseReplace(tokens[1..])
    else if tokens[0] in {"ignore", "rollback", "abort", "fail"} then ParseInsert(tokens[1..])
    else if tokens[0] == "update" then ParseUpdate(tokens[1..])
    else None
  }

  predicate IsReadWord(token: string) {
    token in {"select", "explain", "begin", "commit", "rollback", "savepoint", "release"}
  }

  predicate IsSchemaWord(token: string) { token in {"create", "alter", "drop", "truncate", "attach", "detach"} }

  /** The classification of a statement without common table expressions, by its words. */
  function Classify(tokens: seq<string>, statement: string): Option<QueryMutation> {
    if tokens == [] then None
    else
      var token, rest := tokens[0], tokens[1..];
      if token == "insert" then ParseInsert(rest)
      else if IsReadWord(token) then Some(ReadOnly)
      else if token == "or" then ParseOr(rest)
      else if token == "update" then ParseUpdate(rest)
      else if token == "delete" then
        if |rest| > 1 && rest[0] == "from" then Some(Delete(rest[1])) else None
      else if token == "replace" then ParseReplace(rest)
      else if IsSchemaWord(token) then ParseSchema(token, rest)
      else if token == "vacuum" then Some(Vacuum)
      else if token == "pragma" then Some(if Find(statement, " = ").Some? then Pragma else ReadOnly)
      else None
  }

  function SkipSpaces(s: string): (r: string)
    ensures |r| <= |s| && (r != [] ==> !IsAsciiSpace(r[0] as int))
  {
    if s != [] && IsAsciiSpace(s[0] as int) then SkipSpaces(s[1..]) else s
  }

  /** Reads `rest` at a depth of parentheses, up to a closing one at the top that no comma follows. */
  function StripFrom(sql: string, rest: string, depth: nat): string
    decreases |rest|
  {
    if rest == [] then sql
    else if rest[0] == '(' then StripFrom(sql, rest[1..], depth + 1)
    else if rest[0] == ')' then
      var outer := if depth > 0 then depth - 1 else 0;
      var after := SkipSpaces(rest[1..]);
      if outer == 0 && after != [] then
        if after[0] == ',' then StripFrom(sql, after, outer) else after
      else StripFrom(sql, rest[1..], outer)
    else StripFrom(sql, rest[1..], depth)
  }

  method StripWithClausePrefix(sql: string) returns (r: string)
    ensures r == StripFrom(sql, sql, 0)
  {
    hide SkipSpaces;
    var depth, i := 0, 0;
    assert sql[0..] == sql;
    while i < |sql|
      invariant i <= |sql|
      invariant StripFrom(sql, sql, 0) == StripFrom(sql, sql[i..], depth)
    {
      assert sql[i..][0] == sql[i] && sql[i..][1..] == sql[i + 1..];
      if sql[i] == '(' {
        depth := depth + 1;
      } else if sql[i] == ')' {
        if depth > 0 {
          depth := depth - 1;
        }
        if depth == 0 {
          var j := i + 1;
          while j < |sql| && IsAsciiSpace(sql[j] as int)
            invariant i < j <= |sql|
            invariant SkipSpaces(sql[j..]) == SkipSpaces(sql[i + 1..])
          {
            SpaceIsSkipped(sql, j);
            j := j + 1;
          }
          NothingIsSkipped(sql[j..]);
          if j < |sql| && sql[j] == ',' {
            i := j;
            continue;
          }
          if j < |sql| {
            return sql[j..];
          }
        }
      }
      i := i + 1;
    }
    assert sql[i..] == [];
    r := sql;
  }

  lemma SpaceIsSkipped(s: string, j: nat)
    requires j < |s| && IsAsciiSpace(s[j] as int)
    ensures SkipSpaces(s[j..]) == SkipSpaces(s[j + 1..])
  {
    assert s[j..][1..] == s[j + 1..];
  }

  lemma NothingIsSkipped(s: string)
    requires s == [] || !IsAsciiSpace(s[0] as int)
    ensures SkipSpaces(s) == s
  {
  }

  const WITH := "with "

  /** The part of a normalised statement that is classified. */
  function Statement(normalized: string): string {
    if WITH <= normalized then StripFrom(normalized, normalized, 0) else normalized
  }

  function QueryMutationOf(sql: string): Option<QueryMutation> {
    var statement := Statement(Normalize(sql));
    Classify(Words(statement), statement)
  }

  predicate QueryIsWrite(sql: string) { QueryMutationOf(sql) != Some(ReadOnly) }

  /** Case and the amount of white space make no difference. */
  lemma CaseAndSpacingDoNotMatter(a: string, b: string)
    requires LowerAll(Words(a)) == LowerAll(Words(b))
    ensures QueryMutationOf(a) == QueryMutationOf(b) && QueryIsWrite(a) == QueryIsWrite(b)
  {
    NormalFormIsCanonical(a, b);
  }

  /** Nor does normalising a statement before it is classified. */
  lemma NormalisingDoesNotMatter(sql: string)
    ensures QueryMutationOf(Normalize(sql)) == QueryMutationOf(sql)
  {
    hide Normalize, Statement, Classify, Words;
    NormalizingTwice(sql);
  }

  // ----- Where the main statement is cut off

  /** Reading `x`, the text before a main statement, the last closing parenthesis at the top is followed by
      nothing but spaces, and every earlier one by a comma. */
  predicate Cut(x: string, depth: nat)
    decreases |x|
  {
    if x == [] then false
    else if x[0] == '(' then Cut(x[1..], depth + 1)
    else if x[0] == ')' then
      var outer := if depth > 0 then depth - 1 else 0;
      var after := SkipSpaces(x[1..]);
      if outer == 0 then after == [] || (after[0] == ',' && Cut(after, 0)) else Cut(x[1..], outer)
    else Cut(x[1..], depth)
  }

  predicate IsMain(main: string) { main != [] && !IsAsciiSpace(main[0] as int) && main[0] != ',' }

  predicate IsGap(s: string) { forall i | 0 <= i < |s| :: IsAsciiSpace(s[i] as int) }

  lemma {:induction false} PastGap(gap: string, rest: string)
    requires IsGap(gap) && (rest == [] || !IsAsciiSpace(rest[0] as int))
    ensures SkipSpaces(gap + rest) == rest
  {
    if gap == [] {
      assert gap + rest == rest;
    } else {
      assert (gap + rest)[1..] == gap[1..] + rest;
      PastGap(gap[1..], rest);
    }
  }

  lemma {:induction false} GapInFront(s: string) returns (gap: string)
    ensures IsGap(gap) && s == gap + SkipSpaces(s)
  {
    if s != [] && IsAsciiSpace(s[0] as int) {
      var rest := GapInFront(s[1..]);
      gap := [s[0]] + rest;
    } else {
      gap := [];
    }
  }

  lemma MainIsNoComma(main: string)
    requires IsMain(main)
    ensures main != [] && main[0] != ',' && SkipSpaces(main) == main
  {
  }

  lemma SkipSpacesBefore(a: string, main: string)
    requires IsMain(main)
    ensures SkipSpaces(a + main) == SkipSpaces(a) + main
  {
    var gap := GapInFront(a);
    assert a + main == gap + (SkipSpaces(a) + main);
    PastGap(gap, SkipSpaces(a) + main);
  }

  /** What is returned is all of the statement, or less than what was left to read. */
  lemma {:induction false} StripShortens(sql: string, rest: string, depth: nat)
    ensures StripFrom(sql, rest, depth) == sql || |StripFrom(sql, rest, depth)| < |rest|
    decreases |rest|
  {
    hide SkipSpaces;
    if rest != [] {
      StripShortens(sql, rest[1..], if rest[0] == '(' then depth + 1 else if rest[0] == ')' && depth > 0 then depth - 1 else depth);
      if rest[0] == ')' {
        StripShortens(sql, SkipSpaces(rest[1..]), 0);
      }
    }
  }

  /** Stripping leaves exactly the main statement if and only if the text before it ends in the first cut,
      whatever its parentheses mean. */
  lemma {:induction false} StripsExactlyAtCut(sql: string, x: string, main: string, depth: nat)
    requires IsMain(main) && |sql| > |main|
    ensures StripFrom(sql, x + main, depth) == main <==> Cut(x, depth)
    decreases |x|
  {
    hide SkipSpaces, IsMain;
    if x == [] {
      assert x + main == main;
      StripShortens(sql, main, depth);
    } else {
      assert (x + main)[0] == x[0] && (x + main)[1..] == x[1..] + main;
      if x[0] == ')' {
        var outer := if depth > 0 then depth - 1 else 0;
        var after := SkipSpaces(x[1..]);
        SkipSpacesBefore(x[1..], main);
        MainIsNoComma(main);
        if outer > 0 {
          StripsExactlyAtCut(sql, x[1..], main, outer);
        } else if after != [] {
          assert (after + main)[0] == after[0];
          if after[0] == ',' {
            StripsExactlyAtCut(sql, after, main, 0);
          }
        } else {
          assert after + main == main;
        }
      } else {
        StripsExactlyAtCut(sql, x[1..], main, if x[0] == '(' then depth + 1 else depth);
      }
    }
  }

  lemma {:induction false} GapHasNoCut(sql: string, gap: string, depth: nat)
    requires IsGap(gap)
    ensures StripFrom(sql, gap, depth) == sql
  {
    if gap != [] {
      assert IsAsciiSpace(gap[0] as int);
      GapHasNoCut(sql, gap[1..], depth);
    }
  }

  /** Whatever a statement looks like, stripping leaves all of it, or what stands behind a cut. */
  lemma {:induction false} StripsAtSomeCut(sql: string, rest: string, depth: nat) returns (x: string)
    requires StripFrom(sql, rest, depth) != sql
    ensures rest == x + StripFrom(sql, rest, depth) && Cut(x, depth) && IsMain(StripFrom(sql, rest, depth))
    decreases |rest|
  {
    var r := StripFrom(sql, rest, depth);
    if rest[0] == ')' && depth <= 1 {
      x := CutAtClosing(sql, rest, depth);
    } else {
      hide SkipSpaces, IsMain;
      var deeper := if rest[0] == '(' then depth + 1 else if rest[0] == ')' then depth - 1 else depth;
      var y := StripsAtSomeCut(sql, rest[1..], deeper);
      x := [rest[0]] + y;
      assert x[1..] == y;
    }
  }

  lemma {:induction false} CutAtClosing(sql: string, rest: string, depth: nat) returns (x: string)
    requires rest != [] && rest[0] == ')' && depth <= 1 && StripFrom(sql, rest, depth) != sql
    ensures rest == x + StripFrom(sql, rest, depth) && Cut(x, depth) && IsMain(StripFrom(sql, rest, depth))
    decreases |rest|, 0
  {
    var r := StripFrom(sql, rest, depth);
    var after := SkipSpaces(rest[1..]);
    var gap := GapInFront(rest[1..]);
    if after == [] {
      assert gap + [] == gap;
      GapHasNoCut(sql, gap, 0);
      x := [];
    } else if after[0] == ',' {
      var y := StripsAtSomeCut(sql, after, 0);
      x := [')'] + (gap + y);
      assert x[1..] == gap + y && y[0] == (y + r)[0] == ',';
      PastGap(gap, y);
      assert rest == x + r;
    } else {
      x := [')'] + gap;
      assert x[1..] == gap + [];
      PastGap(gap, []);
      assert gap + [] == gap && rest == x + r;
    }
  }

  // ----- Common table expressions

  /** `head (body) gap`, as in `with name as (...)` or `name as (...)`. */
  datatype Cte = Cte(head: string, body: string, gap: string)

  function CteText(ctes: seq<Cte>, main: string): string {
    if ctes == [] then main
    else
      var c := ctes[0];
      c.head + ("(" + (c.body + (")" + (c.gap + ((if |ctes| > 1 then "," else "") + CteText(ctes[1..], main))))))
  }

  /** Inside a body every parenthesis is matched. */
  predicate Balanced(body: string, depth: nat) {
    if body == [] then depth == 0
    else if body[0] == '(' then Balanced(body[1..], depth + 1)
    else if body[0] == ')' then depth > 0 && Balanced(body[1..], depth - 1)
    else Balanced(body[1..], depth)
  }

  predicate WellFormed(c: Cte) { '(' !in c.head && ')' !in c.head && Balanced(c.body, 0) && IsGap(c.gap) }

  ghost predicate AllWellFormed(ctes: seq<Cte>) { forall i | 0 <= i < |ctes| :: WellFormed(ctes[i]) }

  lemma {:induction false} PastHead(sql: string, head: string, rest: string)
    requires '(' !in head && ')' !in head
    ensures StripFrom(sql, head + rest, 0) == StripFrom(sql, rest, 0)
  {
    if head == [] {
      assert head + rest == rest;
    } else {
      assert head[0] in head && (head + rest)[1..] == head[1..] + rest;
      PastHead(sql, head[1..], rest);
    }
  }

  lemma {:induction false} PastBody(sql: string, body: string, rest: string, depth: nat)
    requires Balanced(body, depth)
    ensures StripFrom(sql, body + rest, depth + 1) == StripFrom(sql, rest, 1)
    decreases |body|
  {
    if body == [] {
      assert body + rest == rest;
    } else {
      assert (body + rest)[0] == body[0] && (body + rest)[1..] == body[1..] + rest;
      PastBody(sql, body[1..], rest,
               if body[0] == '(' then depth + 1 else if body[0] == ')' then depth - 1 else depth);
    }
  }

  lemma PastOpening(sql: string, rest: string)
    ensures StripFrom(sql, "(" + rest, 0) == StripFrom(sql, rest, 1)
  {
    assert ("(" + rest)[1..] == rest;
  }

  lemma PastClosing(sql: string, gap: string, rest: string)
    requires IsGap(gap) && rest != [] && !IsAsciiSpace(rest[0] as int)
    ensures StripFrom(sql, ")" + (gap + rest), 1) == if rest[0] == ',' then StripFrom(sql, rest, 0) else rest
  {
    PastGap(gap, rest);
    assert (")" + (gap + rest))[1..] == gap + rest;
  }

  lemma PastComma(sql: string, rest: string)
    ensures StripFrom(sql, "," + rest, 0) == StripFrom(sql, rest, 0)
  {
    assert ("," + rest)[1..] == rest;
  }

  lemma PastCte(sql: string, c: Cte, rest: string)
    requires WellFormed(c) && rest != [] && !IsAsciiSpace(rest[0] as int)
    ensures StripFrom(sql, c.head + ("(" + (c.body + (")" + (c.gap + rest)))), 0)
            == if rest[0] == ',' then StripFrom(sql, rest, 0) else rest
  {
    hide StripFrom, Balanced;
    PastHead(sql, c.head, "(" + (c.body + (")" + (c.gap + rest))));
    PastOpening(sql, c.body + (")" + (c.gap + rest)));
    PastBody(sql, c.body, ")" + (c.gap + rest), 0);
    PastClosing(sql, c.gap, rest);
  }

  /** Stripping leaves exactly the main statement, when bodies are balanced, heads name no columns and no
      parenthesis is quoted. */
  lemma {:induction false} StrippingLeavesMain(sql: string, ctes: seq<Cte>, main: string)
    requires ctes != [] && AllWellFormed(ctes) && IsMain(main)
    ensures StripFrom(sql, CteText(ctes, main), 0) == main
    decreases ctes
  {
    hide StripFrom, WellFormed;
    var c := ctes[0];
    assert WellFormed(c);
    if |ctes| == 1 {
      assert CteText(ctes[1..], main) == main && "" + main == main;
      PastCte(sql, c, main);
    } else {
      var rest := CteText(ctes[1..], main);
      PastCte(sql, c, "," + rest);
      PastComma(sql, rest);
      StrippingLeavesMain(sql, ctes[1..], main);
    }
  }

  function BeforeMain(ctes: seq<Cte>): string {
    if ctes == [] then []
    else
      var c := ctes[0];
      c.head + ("(" + (c.body + (")" + (c.gap + ((if |ctes| > 1 then "," else "") + BeforeMain(ctes[1..]))))))
  }

  lemma {:induction false} CteTextIs(ctes: seq<Cte>, main: string)
    ensures CteText(ctes, main) == BeforeMain(ctes) + main
  {
    if ctes != [] {
      CteTextIs(ctes[1..], main);
      var c := ctes[0];
      BehindCte(c, if |ctes| > 1 then "," else "", BeforeMain(ctes[1..]), main);
    }
  }

  lemma BehindCte(c: Cte, comma: string, before: string, main: string)
    ensures c.head + ("(" + (c.body + (")" + (c.gap + (comma + (before + main))))))
            == c.head + ("(" + (c.body + (")" + (c.gap + (comma + before))))) + main
  {
    ThreeParts(comma, before, main);
    ThreeParts(c.gap, comma + before, main);
    ThreeParts(")", c.gap + (comma + before), main);
    ThreeParts(c.body, ")" + (c.gap + (comma + before)), main);
    ThreeParts("(", c.body + (")" + (c.gap + (comma + before))), main);
    ThreeParts(c.head, "(" + (c.body + (")" + (c.gap + (comma + before)))), main);
  }

  lemma ThreeParts(a: string, b: string, c: string)
    ensures a + (b + c) == (a + b) + c
  {
  }

  /** Common table expressions with balanced bodies, without column lists, end in the first cut. */
  lemma WellFormedIsCut(ctes: seq<Cte>)
    requires ctes != [] && AllWellFormed(ctes)
    ensures Cut(BeforeMain(ctes), 0)
  {
    hide StripFrom, AllWellFormed, CteText, BeforeMain, Cut;
    CteTextIs(ctes, "x");
    StrippingLeavesMain("xx", ctes, "x");
    StripsExactlyAtCut("xx", BeforeMain(ctes), "x", 0);
  }

  /** A statement's first word decides what it is; a text before it that ends in the first cut does not. */
  lemma MainDecides(sql: string, x: string, main: string)
    requires Normalize(sql) == x + main && WITH <= x && Cut(x, 0) && IsMain(main)
    ensures QueryMutationOf(sql) == Classify(Words(main), main)
  {
    hide StripFrom, Normalize, Words, Classify, Cut;
    assert WITH <= x + main;
    StripsExactlyAtCut(Normalize(sql), x, main, 0);
  }

  predicate ChangesRows(token: string) { token in {"insert", "update", "delete", "replace"} }

  lemma ChangeIsNoRead(tokens: seq<string>, statement: string)
    requires tokens != [] && ChangesRows(tokens[0])
    ensures Classify(tokens, statement) != Some(ReadOnly)
  {
  }

  /** What is taken for a read. */
  lemma ReadOnlyExactly(tokens: seq<string>, statement: string)
    ensures Classify(tokens, statement) == Some(ReadOnly)
            <==> tokens != [] && (IsReadWord(tokens[0]) || (tokens[0] == "pragma" && Find(statement, " = ").None?))
  {
    if tokens != [] {
      if ChangesRows(tokens[0]) {
        ChangeIsNoRead(tokens, statement);
      }
      if tokens[0] == "or" {
        OrIsNoRead(tokens[1..]);
      }
    }
  }

  lemma OrIsNoRead(tokens: seq<string>)
    ensures ParseOr(tokens) != Some(ReadOnly)
  {
  }

  // ----- Every kind of statement

  /** These seven words, and a pragma that sets nothing, only read. */
  lemma ReadsExactly(tokens: seq<string>, statement: string)
    ensures Classify(tokens, statement) == Some(ReadOnly)
            <==> && tokens != []
                 && (|| tokens[0] == "select" || tokens[0] == "explain" || tokens[0] == "begin" || tokens[0] == "commit"
                     || tokens[0] == "rollback" || tokens[0] == "savepoint" || tokens[0] == "release"
                     || (tokens[0] == "pragma" && Find(statement, " = ").None?))
  {
    hide Classify, Find;
    ReadOnlyExactly(tokens, statement);
  }

  /** The word behind `insert` and what may stand before the table: `or`, and `into`. Of a conflict clause
      only the `or` is passed over. */
  predicate NamesTable(tokens: seq<string>, table: string) {
    || (|tokens| > 1 && tokens[0] == "into" && tokens[1] == table)
    || (|tokens| > 2 && tokens[0] == "or" && tokens[1] == "into" && tokens[2] == table)
    || (|tokens| > 1 && tokens[0] == "or" && tokens[1] != "into" && tokens[1] == table)
    || (|tokens| > 0 && tokens[0] != "or" && tokens[0] != "into" && tokens[0] == table)
  }

  lemma InsertNamesTable(tokens: seq<string>, table: string)
    ensures ParseInsert(tokens) == Some(Insert(table)) <==> NamesTable(tokens, table)
    ensures ParseReplace(tokens) == Some(Replaced(table)) <==> NamesTable(tokens, table)
    ensures ParseInsert(tokens).Some? ==> ParseInsert(tokens).value.Insert?
  {
  }

  /** The words that follow `or` in place of an insert. */
  predicate IsConflictWord(token: string) {
    token == "ignore" || token == "rollback" || token == "abort" || token == "fail"
  }

  lemma OrExactly(tokens: seq<string>, table: string)
    ensures ParseOr(tokens) == Some(Insert(table)) <==> tokens != [] && IsConflictWord(tokens[0]) && NamesTable(tokens[1..], table)
    ensures ParseOr(tokens) == Some(Replaced(table)) <==> tokens != [] && tokens[0] == "replace" && NamesTable(tokens[1..], table)
    ensures ParseOr(tokens) == Some(Update(table)) <==> |tokens| > 1 && tokens[0] == "update" && tokens[1] == table
    ensures ParseOr(tokens).Some? ==> ParseOr(tokens).value.Insert? || ParseOr(tokens).value.Replaced? || ParseOr(tokens).value.Update?
  {
    hide ParseInsert, ParseReplace, NamesTable;
    if tokens != [] {
      InsertNamesTable(tokens[1..], table);
      ReplaceIsReplaced(tokens[1..]);
    }
  }

  lemma ReplaceIsReplaced(tokens: seq<string>)
    ensures ParseReplace(tokens).Some? ==> ParseReplace(tokens).value.Replaced?
    ensures ParseInsert(tokens).Some? ==> ParseInsert(tokens).value.Insert?
  {
  }

  predicate IsOtherWord(token: string) {
    token in {"insert", "or", "update", "delete", "replace", "vacuum", "pragma"}
  }

  lemma BranchByWord(tokens: seq<string>, statement: string)
    requires tokens != []
    ensures var m, rest := Classify(tokens, statement), tokens[1..];
            && (tokens[0] == "insert" ==> m == ParseInsert(rest))
            && (tokens[0] == "or" ==> m == ParseOr(rest))
            && (tokens[0] == "update" ==> m == ParseUpdate(rest))
            && (tokens[0] == "delete" ==> m == if |rest| > 1 && rest[0] == "from" then Some(Delete(rest[1])) else None)
            && (tokens[0] == "replace" ==> m == ParseReplace(rest))
            && (tokens[0] == "vacuum" ==> m == Some(Vacuum))
            && (tokens[0] == "pragma" ==> m == Some(if Find(statement, " = ").Some? then Pragma else ReadOnly))
            && (IsSchemaWord(tokens[0]) ==> m == ParseSchema(tokens[0], rest) && !IsOtherWord(tokens[0]))
            && (!IsSchemaWord(tokens[0]) && !IsOtherWord(tokens[0]) ==> m == None || m == Some(ReadOnly))
  {
    hide ParseInsert, ParseReplace, ParseOr, ParseSchema, ParseUpdate, Find;
  }

  lemma SchemaKinds(token: string, tokens: seq<string>)
    ensures ParseSchema(token, tokens).Some? ==>
              var m := ParseSchema(token, tokens).value;
              m.Create? || m.Alter? || m.Drop? || m.Truncate? || m.Attach? || m.Detach?
  {
  }

  /** Which rows of which table a statement changes, word by word. */
  lemma ChangesExactly(tokens: seq<string>, statement: string, table: string)
    ensures var m := Classify(tokens, statement);
            && (m == Some(Insert(table))
                <==> || (tokens != [] && tokens[0] == "insert" && NamesTable(tokens[1..], table))
                     || (|tokens| > 1 && tokens[0] == "or" && IsConflictWord(tokens[1]) && NamesTable(tokens[2..], table)))
            && (m == Some(Replaced(table))
                <==> || (tokens != [] && tokens[0] == "replace" && NamesTable(tokens[1..], table))
                     || (|tokens| > 1 && tokens[0] == "or" && tokens[1] == "replace" && NamesTable(tokens[2..], table)))
            && (m == Some(Update(table))
                <==> || (|tokens| > 1 && tokens[0] == "update" && tokens[1] == table)
                     || (|tokens| > 2 && tokens[0] == "or" && tokens[1] == "update" && tokens[2] == table))
            && (m == Some(Delete(table))
                <==> |tokens| > 2 && tokens[0] == "delete" && tokens[1] == "from" && tokens[2] == table)
  {
    hide ParseInsert, ParseReplace, NamesTable, ParseOr, ParseSchema, Find, Classify, IsSchemaWord, IsConflictWord;
    if tokens == [] {
      NothingToClassify(statement);
    } else {
      BranchByWord(tokens, statement);
      InsertNamesTable(tokens[1..], table);
      ReplaceIsReplaced(tokens[1..]);
      OrExactly(tokens[1..], table);
      SchemaKinds(tokens[0], tokens[1..]);
      if |tokens| > 1 {
        assert tokens[1..][1..] == tokens[2..];
      }
    }
  }

  /** A name without the quotes around it. */
  function Unquoted(s: string): string { TrimQuotesEnd(TrimQuotesStart(s)) }

  predicate IsQuote(c: char) { c == '"' || c == '`' || c == '\'' }

  ghost predicate AllQuotes(s: string) { forall i | 0 <= i < |s| :: IsQuote(s[i]) }

  lemma {:induction false} QuotesGoInFront(quotes: string, name: string)
    requires AllQuotes(quotes) && (name == [] || !IsQuote(name[0]))
    ensures TrimQuotesStart(quotes + name) == name
  {
    if quotes == [] {
      assert quotes + name == name;
    } else {
      assert (quotes + name)[1..] == quotes[1..] + name && IsQuote(quotes[0]);
      QuotesGoInFront(quotes[1..], name);
    }
  }

  lemma {:induction false} QuotesGoBehind(name: string, quotes: string)
    requires AllQuotes(quotes) && (name == [] || !IsQuote(name[|name| - 1]))
    ensures TrimQuotesEnd(name + quotes) == name
    decreases |quotes|
  {
    var s := name + quotes;
    if quotes == [] {
      assert s == name;
    } else {
      assert s[..|s| - 1] == name + quotes[..|quotes| - 1] && IsQuote(quotes[|quotes| - 1]);
      QuotesGoBehind(name, quotes[..|quotes| - 1]);
    }
  }

  /** All quotes around a name go, of any kind, and nothing else. */
  lemma UnquotedExactly(before: string, name: string, behind: string)
    requires AllQuotes(before) && AllQuotes(behind) && name != [] && !IsQuote(name[0]) && !IsQuote(name[|name| - 1])
    ensures Unquoted(before + (name + behind)) == name
  {
    assert (name + behind)[0] == name[0];
    QuotesGoInFront(before, name + behind);
    QuotesGoBehind(name, behind);
  }

  predicate OfSchema(m: QueryMutation) {
    m.Create? || m.Alter? || m.Drop? || m.Truncate? || m.Attach? || m.Detach?
  }

  lemma SchemaBranch(tokens: seq<string>, statement: string)
    requires tokens != []
    ensures var m := Classify(tokens, statement);
            && (IsSchemaWord(tokens[0]) ==> m == ParseSchema(tokens[0], tokens[1..]))
            && (!IsSchemaWord(tokens[0]) ==> m.Some? ==> !OfSchema(m.value))
  {
    hide ParseInsert, ParseReplace, ParseOr, ParseSchema, Find, Classify, IsSchemaWord;
    BranchByWord(tokens, statement);
    ReplaceIsReplaced(tokens[1..]);
    OrExactly(tokens[1..], "");
  }

  lemma TargetExactly(token: string, tokens: seq<string>, target: string)
    requires IsSchemaWord(token)
    ensures var m := ParseSchema(token, tokens);
            && (m == Some(Create(target)) <==> tokens != [] && token == "create" && Unquoted(tokens[0]) == target)
            && (m == Some(Alter(target)) <==> tokens != [] && token == "alter" && Unquoted(tokens[0]) == target)
            && (m == Some(Drop(target)) <==> tokens != [] && token == "drop" && Unquoted(tokens[0]) == target)
            && (m == Some(Truncate(target)) <==> tokens != [] && token == "truncate" && Unquoted(tokens[0]) == target)
            && (m == Some(Attach) <==> tokens != [] && token == "attach")
            && (m == Some(Detach) <==> tokens != [] && token == "detach")
  {
    hide TrimQuotesStart, TrimQuotesEnd;
  }

  /** Which statements change the schema. */
  lemma SchemaExactly(tokens: seq<string>, statement: string, target: string)
    ensures var m := Classify(tokens, statement);
            && (m == Some(Create(target)) <==> |tokens| > 1 && tokens[0] == "create" && Unquoted(tokens[1]) == target)
            && (m == Some(Alter(target)) <==> |tokens| > 1 && tokens[0] == "alter" && Unquoted(tokens[1]) == target)
            && (m == Some(Drop(target)) <==> |tokens| > 1 && tokens[0] == "drop" && Unquoted(tokens[1]) == target)
            && (m == Some(Truncate(target)) <==> |tokens| > 1 && tokens[0] == "truncate" && Unquoted(tokens[1]) == target)
            && (m == Some(Attach) <==> |tokens| > 1 && tokens[0] == "attach")
            && (m == Some(Detach) <==> |tokens| > 1 && tokens[0] == "detach")
  {
    hide Classify, ParseSchema, Unquoted;
    if tokens == [] {
      NothingToClassify(statement);
    } else {
      SchemaBranch(tokens, statement);
      if IsSchemaWord(tokens[0]) {
        TargetExactly(tokens[0], tokens[1..], target);
      }
    }
  }

  lemma NothingToClassify(statement: string)
    ensures Classify([], statement) == None
  {
  }

  /** And which set something, or rebuild the database. */
  lemma MaintenanceExactly(tokens: seq<string>, statement: string)
    ensures var m := Classify(tokens, statement);
            && (m == Some(Vacuum) <==> tokens != [] && tokens[0] == "vacuum")
            && (m == Some(Pragma) <==> tokens != [] && tokens[0] == "pragma" && Find(statement, " = ").Some?)
  {
    hide ParseInsert, ParseReplace, ParseOr, ParseSchema, Find, Classify, IsSchemaWord;
    if tokens == [] {
      NothingToClassify(statement);
    } else {
      BranchByWord(tokens, statement);
      ReplaceIsReplaced(tokens[1..]);
      OrExactly(tokens[1..], "");
      SchemaKinds(tokens[0], tokens[1..]);
    }
  }

  // ----- Writing needs the lease

  datatype DbRole = Master | Standby

  datatype Query = Query(sql: string, bypassMasterCheck: bool)

  predicate RequireMasterForWrite(role: DbRole, allowStandbyWrites: bool, query: Query) {
    query.bypassMasterCheck || allowStandbyWrites || role == Master || !QueryIsWrite(query.sql)
  }

  /** Where a statement is classified: at its front, or behind the first cut of its common table
      expressions. */
  predicate StartsBehind(normalized: string, x: string, main: string) {
    && normalized == x + main
    && if WITH <= normalized then WITH <= x && Cut(x, 0) && IsMain(main) else x == []
  }

  lemma ClassifiedBehind(sql: string, x: string, main: string)
    requires StartsBehind(Normalize(sql), x, main)
    ensures QueryMutationOf(sql) == Classify(Words(main), main)
  {
    hide StripFrom, Normalize, Words, Classify, Cut;
    if WITH <= Normalize(sql) {
      MainDecides(sql, x, main);
    } else {
      assert x + main == main;
    }
  }

  /** A checked statement that changes rows never passes on a standby, with or without common table
      expressions in front of it, as long as those end in the first cut. */
  lemma StandbyNeverChangesRows(sql: string, x: string, main: string)
    requires StartsBehind(Normalize(sql), x, main)
    requires Words(main) != [] && ChangesRows(Words(main)[0])
    ensures QueryIsWrite(sql) && !RequireMasterForWrite(Standby, false, Query(sql, false))
  {
    hide Classify, ChangesRows, Normalize, Words, StartsBehind;
    ChangeIsNoRead(Words(main), main);
    ClassifiedBehind(sql, x, main);
  }

  predicate ReadsFirst(statement: string) {
    var tokens := Words(statement);
    tokens != [] && (IsReadWord(tokens[0]) || (tokens[0] == "pragma" && Find(statement, " = ").None?))
  }

  /** What passes on a standby is what begins with a reading word behind its first cut. So a change whose
      expressions are cut too early passes exactly if the text behind that cut begins with one. */
  lemma PassesStandbyExactly(sql: string, x: string, behind: string)
    requires StartsBehind(Normalize(sql), x, behind)
    ensures RequireMasterForWrite(Standby, false, Query(sql, false)) <==> ReadsFirst(behind)
  {
    hide Classify, Normalize, Words, StartsBehind, IsReadWord, Find;
    ClassifiedBehind(sql, x, behind);
    ReadOnlyExactly(Words(behind), behind);
  }

  /** Every statement begins behind such a cut, unless it has common table expressions without one. Then it
      is refused. */
  lemma UncutIsRefused(sql: string) returns (x: string, behind: string)
    ensures StartsBehind(Normalize(sql), x, behind)
            || (WITH <= Normalize(sql) && !RequireMasterForWrite(Standby, false, Query(sql, false)))
  {
    var normalized := Normalize(sql);
    x, behind := [], normalized;
    if WITH <= normalized {
      hide StripFrom, Normalize, Words, Classify, Cut, IsMain;
      if StripFrom(normalized, normalized, 0) == normalized {
        WithIsNoStatement(normalized);
      } else {
        x := StripsAtSomeCut(normalized, normalized, 0);
        behind := StripFrom(normalized, normalized, 0);
        CutHoldsParenthesis(x, 0);
        WithStaysInFront(x, behind);
      }
    } else {
      assert x + behind == behind;
    }
  }

  lemma {:induction false} CutHoldsParenthesis(x: string, depth: nat)
    requires Cut(x, depth)
    ensures ')' in x
    decreases |x|
  {
    hide SkipSpaces;
    if x[0] != ')' {
      CutHoldsParenthesis(x[1..], if x[0] == '(' then depth + 1 else depth);
      assert x == [x[0]] + x[1..];
    }
  }

  lemma WithStaysInFront(x: string, behind: string)
    requires WITH <= x + behind && ')' in x
    ensures WITH <= x
  {
    var i :| 0 <= i < |x| && x[i] == ')';
    assert (x + behind)[i] == ')' && forall k | 0 <= k < 5 :: (x + behind)[k] == WITH[k];
    assert i >= 5;
    assert (x + behind)[..5] == x[..5];
  }

  lemma WithIsNoStatement(statement: string)
    requires WITH <= statement
    ensures Classify(Words(statement), statement) == None
  {
    assert IsWord("with") && WITH == "with" + " ";
    assert statement == "with" + statement[4..] && statement[4] == ' ';
    hide Words;
    FirstWord("with", statement[4..]);
  }

  // ----- Statements that are cut too early

  lemma FirstWordDecides(word: string, rest: string)
    requires IsWord(word) && (rest == [] || rest[0] == ' ')
    ensures Words(word + rest) != [] && Words(word + rest)[0] == word
  {
    FirstWord(word, rest);
  }

  /** A column list on any of the common table expressions ends in a cut: what is classified starts at the
      `as` behind it. Reads of this form are taken for writes, so a standby refuses them. */
  lemma ColumnListsLookLikeWrites(sql: string, x: string, rest: string)
    requires WITH <= x && Cut(x, 0) && rest != [] && rest[0] == ' '
    requires Normalize(sql) == x + ("as" + rest)
    ensures QueryMutationOf(sql) == None && QueryIsWrite(sql)
  {
    hide Normalize, Words, StripFrom, Cut;
    assert IsWord("as");
    FirstWordDecides("as", rest);
    MainDecides(sql, x, "as" + rest);
  }

  const QUOTED := "with t as (select ') select ') delete from t"

  /** A quoted parenthesis ends the common table expression too early: this delete passes for a read. */
  lemma QuotedParenthesisMisleads()
    ensures QueryMutationOf(QUOTED) == Some(ReadOnly)
    ensures RequireMasterForWrite(Standby, false, Query(QUOTED, false))
  {
    var cte := Cte("with t as ", "select '", " ");
    hide Normalize, QueryMutationOf, BeforeMain, WellFormed, Cut, Words, Classify;
    QuotedIsNormal();
    QuotedIsSplit(cte);
    assert AllWellFormed([cte]);
    WellFormedIsCut([cte]);
    assert IsWord("select");
    FirstWordDecides("select", " ') delete from t");
    MainDecides(QUOTED, BeforeMain([cte]), "select" + " ') delete from t");
    ReadOnlyExactly(Words("select" + " ') delete from t"), "select" + " ') delete from t");
  }

  lemma NormalHalves(a: string, b: string)
    requires IsNormal(a) && IsNormal(b)
    ensures IsNormal(a + (" " + b))
  {
    var s := a + (" " + b);
    assert forall i | 0 <= i < |s| :: s[i] == if i < |a| then a[i] else if i == |a| then ' ' else b[i - |a| - 1];
  }

  lemma FirstHalfIsNormal()
    ensures IsNormal("with t as (select ')")
  {
  }

  lemma SecondHalfIsNormal()
    ensures IsNormal("select ')" + (" " + "delete from t"))
  {
    assert IsNormal("select ')") && IsNormal("delete from t");
    hide IsNormal;
    NormalHalves("select ')", "delete from t");
  }

  lemma QuotedHasNormalForm()
    ensures IsNormal(QUOTED)
  {
    hide IsNormal;
    FirstHalfIsNormal();
    SecondHalfIsNormal();
    NormalHalves("with t as (select ')", "select ')" + (" " + "delete from t"));
    QuotedHalves();
  }

  lemma QuotedHalves()
    ensures QUOTED == "with t as (select ')" + (" " + ("select ')" + (" " + "delete from t")))
  {
  }

  lemma QuotedIsNormal()
    ensures Normalize(QUOTED) == QUOTED
  {
    hide IsNormal;
    QuotedHasNormalForm();
    NormalIsFixed(QUOTED);
  }

  lemma {:induction false} FlatIsBalanced(body: string)
    requires '(' !in body && ')' !in body
    ensures Balanced(body, 0)
  {
    if body != [] {
      assert body[0] in body;
      FlatIsBalanced(body[1..]);
    }
  }

  lemma QuotedHoldsNone()
    ensures '(' !in "with t as " && ')' !in "with t as " && '(' !in "select '" && ')' !in "select '" && IsGap(" ")
  {
  }

  lemma QuotedIsWellFormed(cte: Cte)
    requires cte == Cte("with t as ", "select '", " ")
    ensures WellFormed(cte)
  {
    hide Balanced, IsGap;
    QuotedHoldsNone();
    FlatIsBalanced("select '");
  }

  lemma QuotedIsSplit(cte: Cte)
    requires cte == Cte("with t as ", "select '", " ")
    ensures WellFormed(cte) && WITH <= BeforeMain([cte])
    ensures QUOTED == BeforeMain([cte]) + ("select" + " ') delete from t")
  {
    hide *;
    QuotedIsWellFormed(cte);
    OneCte(cte);
    QuotedIsConcatenated();
    QuotedStartsWith();
  }

  lemma QuotedStartsWith()
    ensures WITH <= "with t as " + ("(" + ("select '" + (")" + " ")))
  {
  }

  lemma OneCte(c: Cte)
    ensures BeforeMain([c]) == c.head + ("(" + (c.body + (")" + c.gap)))
  {
    assert [c][1..] == [] && BeforeMain([]) == [];
    assert c.gap + ("" + []) == c.gap;
  }

  lemma FrontIsConcatenated()
    ensures "with t as " + ("(" + ("select '" + (")" + " "))) == "with t as (select ') "
  {
  }

  lemma MainIsConcatenated()
    ensures "select" + " ') delete from t" == "select ') delete from t"
  {
  }

  lemma QuotedIsConcatenated()
    ensures QUOTED == "with t as " + ("(" + ("select '" + (")" + " "))) + ("select" + " ') delete from t")
  {
    FrontIsConcatenated();
    MainIsConcatenated();
  }
}
