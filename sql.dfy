/**
  The statements the handlers send to the store. The fixed ones are written
  with single spaces where the source's template literals carry line breaks
  and indentation. The partial-update (PATCH) builder is shared by both source
  files: one `key = ?` assignment per body key, joined with ", ", followed by a
  WHERE on the product's id column, with the values in key order and the id last.
*/
module Sql {
  import opened Js
  import opened Http

  const SelectUserByEmail: string := "SELECT * FROM users WHERE email = ?"
  const InsertUser: string := "INSERT INTO users (email, password) VALUES (?, ?)"
  const SelectProducts: string := "SELECT * FROM products"
  const InsertProduct: string :=
    "INSERT INTO products (product_name, description, price, stock, created_at) VALUES (?, ?, ?, ?, NOW())"
  const UpdateProduct: string :=
    "UPDATE products SET product_name = ?, description = ?, price = ?, stock = ? WHERE product_id = ?"
  const DeleteProductById: string := "DELETE FROM products WHERE product_id = ?"
  const SelectProductById: string := "SELECT 1 FROM products WHERE product_id = ? LIMIT 1"

  /** `[product_name, description, price, stock]`, destructured from the body:
      the parameters of the INSERT and, ahead of the id, of the full UPDATE. */
  function ProductParams(b: Body): seq<Value> {
    [Get(b, "product_name"), Get(b, "description"), Get(b, "price"), Get(b, "stock")]
  }

  /** The number of `?` characters in a statement text. The driver fills a lone
      `?` with one parameter; in the fixed statements and in a PATCH text whose
      keys hold no `?`, every `?` stands alone, so this is the number of
      parameters the text takes. */
  function PlaceholderCount(sql: string): nat {
    Count(sql, '?')
  }

  lemma PlaceholdersOfConcat(a: string, b: string)
    ensures PlaceholderCount(a + b) == PlaceholderCount(a) + PlaceholderCount(b)
  {
    CountOfConcat(a, b, '?');
  }

  /** The fixed pieces of the statement text. */
  const UpdateHead: string := "UPDATE products SET "
  const WhereKeyword: string := " WHERE "
  const EqualsPlaceholder: string := " = ?"
  const Comma: string := ", "

  lemma UpdateHeadPlaceholders() ensures PlaceholderCount(UpdateHead) == 0 { assert '?' !in UpdateHead; }
  lemma WhereKeywordPlaceholders() ensures PlaceholderCount(WhereKeyword) == 0 { assert '?' !in WhereKeyword; }
  lemma CommaPlaceholders() ensures PlaceholderCount(Comma) == 0 { assert '?' !in Comma; }
  lemma EqualsPlaceholderPlaceholders() ensures PlaceholderCount(EqualsPlaceholder) == 1 {
    assert EqualsPlaceholder == " = " + "?";
    assert '?' !in " = ";
    PlaceholdersOfConcat(" = ", "?");
  }

  /** `${key} = ?`: the assignment of one key. */
  function Assignment(key: string): string {
    key + EqualsPlaceholder
  }

  /** `keys.map(key => `${key} = ?`)`: each assignment holds its key's
      `?` characters and exactly one more. */
  function Assignments(keys: seq<string>): (a: seq<string>)
    ensures |a| == |keys|
    ensures forall i :: 0 <= i < |keys| ==> PlaceholderCount(a[i]) == PlaceholderCount(keys[i]) + 1
  {
    EqualsPlaceholderPlaceholders();
    var a := seq(|keys|, i requires 0 <= i < |keys| => Assignment(keys[i]));
    assert forall i :: 0 <= i < |keys| ==> PlaceholderCount(a[i]) == PlaceholderCount(keys[i]) + 1 by {
      forall i | 0 <= i < |keys| ensures PlaceholderCount(a[i]) == PlaceholderCount(keys[i]) + 1 {
        PlaceholdersOfConcat(keys[i], EqualsPlaceholder);
      }
    }
    a
  }

  /** Summed over a list of keys, the assignments add one `?` per key. */
  lemma {:induction false} AssignmentsPlaceholders(keys: seq<string>)
    ensures Occurrences(Assignments(keys), '?') == |keys| + Occurrences(keys, '?')
  {
    if |keys| > 0 {
      AssignmentsPlaceholders(keys[1..]);
      assert Assignments(keys)[1..] == Assignments(keys[1..]);
    }
  }

  /** `keys.map(key => `${key} = ?`).join(', ')`: one `?` per key, plus
      any `?` the keys themselves contain. */
  function SetClause(keys: seq<string>): (s: string)
    ensures PlaceholderCount(s) == |keys| + Occurrences(keys, '?')
  {
    AssignmentsPlaceholders(keys);
    CommaPlaceholders();
    Join(Assignments(keys), Comma)
  }

  /** `sql` holds the assignment `key = ?` with `before` `?` characters ahead of
      it and `after` behind it. */
  ghost predicate AssignedAt(sql: string, key: string, before: nat, after: nat) {
    exists pre, post ::
      && sql == pre + Assignment(key) + post
      && PlaceholderCount(pre) == before
      && PlaceholderCount(post) == after
  }

  /** Ahead of key i's assignment, the SET clause holds one `?` per earlier
      key plus the `?` characters of those keys. */
  lemma PlaceholdersBefore(keys: seq<string>, i: nat)
    requires i < |keys|
    ensures PlaceholderCount(JoinedBefore(Assignments(keys), Comma, i)) == i + Occurrences(keys[..i], '?')
  {
    if i > 0 {
      var parts := Assignments(keys)[..i];
      assert parts == Assignments(keys[..i]);
      AssignmentsPlaceholders(keys[..i]);
      assert '?' !in Comma;
      assert PlaceholderCount(Join(parts, Comma)) == Occurrences(parts, '?');
      CommaPlaceholders();
      PlaceholdersOfConcat(Join(parts, Comma), Comma);
    }
  }

  /** Behind key i's assignment, the SET clause holds one `?` per later key
      plus the `?` characters of those keys. */
  lemma PlaceholdersAfter(keys: seq<string>, i: nat)
    requires i < |keys|
    ensures PlaceholderCount(JoinedAfter(Assignments(keys), Comma, i))
         == |keys| - i - 1 + Occurrences(keys[i + 1..], '?')
  {
    if i < |keys| - 1 {
      var parts := Assignments(keys)[i + 1..];
      assert parts == Assignments(keys[i + 1..]);
      AssignmentsPlaceholders(keys[i + 1..]);
      assert '?' !in Comma;
      assert PlaceholderCount(Join(parts, Comma)) == Occurrences(parts, '?');
      CommaPlaceholders();
      PlaceholdersOfConcat(Comma, Join(parts, Comma));
    } else {
      assert keys[i + 1..] == [];
    }
  }

  /** Key i's assignment sits in the SET clause after the assignments of the
      keys before it and ahead of those of the keys after it. */
  lemma SetClauseAt(keys: seq<string>, i: nat)
    requires i < |keys|
    ensures AssignedAt(SetClause(keys), keys[i],
                       i + Occurrences(keys[..i], '?'),
                       |keys| - i - 1 + Occurrences(keys[i + 1..], '?'))
  {
    var parts := Assignments(keys);
    JoinAt(parts, Comma, i);
    PlaceholdersBefore(keys, i);
    PlaceholdersAfter(keys, i);
    assert SetClause(keys) == JoinedBefore(parts, Comma, i) + Assignment(keys[i]) + JoinedAfter(parts, Comma, i);
  }

  /** ` WHERE ${column} = ?`: the clause that matches the id. */
  function WhereClause(column: string): string {
    WhereKeyword + column + EqualsPlaceholder
  }

  /** The WHERE clause holds the column's `?` characters and one for the id. */
  lemma WhereClausePlaceholders(column: string)
    ensures PlaceholderCount(WhereClause(column)) == PlaceholderCount(column) + 1
  {
    WhereKeywordPlaceholders();
    EqualsPlaceholderPlaceholders();
    PlaceholdersOfConcat(WhereKeyword, column);
    PlaceholdersOfConcat(WhereKeyword + column, EqualsPlaceholder);
  }

  /** The UPDATE text holds the SET clause's `?` characters, the column's, and one for the id. */
  lemma StatementPlaceholders(keys: seq<string>, column: string)
    ensures PlaceholderCount(UpdateHead + SetClause(keys) + WhereClause(column))
         == PlaceholderCount(SetClause(keys)) + PlaceholderCount(column) + 1
  {
    UpdateHeadPlaceholders();
    WhereClausePlaceholders(column);
    PlaceholdersOfConcat(UpdateHead, SetClause(keys));
    PlaceholdersOfConcat(UpdateHead + SetClause(keys), WhereClause(column));
  }

  /** `UPDATE products SET ${setClause} WHERE ${column} = ?` with `[...values, id]`:
      the values in key order, then the id. */
  function PartialUpdate(keys: seq<string>, values: seq<Value>, column: string, id: Value): (st: Statement)
    ensures |st.params| == |values| + 1
    ensures forall i :: 0 <= i < |values| ==> st.params[i] == values[i]
    ensures st.params[|values|] == id
  {
    Statement(UpdateHead + SetClause(keys) + WhereClause(column), values + [id])
  }

  /** The text holds one `?` per key and one for the id, plus every `?` in the
      keys and the column; so when there is one value per key, the text holds
      as many `?` characters as there are parameters exactly when no key and
      not the column contains `?`. */
  lemma PartialUpdatePlaceholders(keys: seq<string>, values: seq<Value>, column: string, id: Value)
    ensures var st := PartialUpdate(keys, values, column, id);
            PlaceholderCount(st.sql) == |keys| + 1 + Occurrences(keys, '?') + PlaceholderCount(column)
    ensures var st := PartialUpdate(keys, values, column, id);
            |values| == |keys| ==>
              (PlaceholderCount(st.sql) == |st.params| <==>
                 '?' !in column && forall k :: 0 <= k < |keys| ==> '?' !in keys[k])
  {
    StatementPlaceholders(keys, column);
    NoOccurrences(keys, '?');
  }

  /** Text put ahead of an assignment adds its `?` characters ahead of it. */
  lemma AssignedAfterHead(head: string, sql: string, key: string, before: nat, after: nat)
    requires AssignedAt(sql, key, before, after)
    ensures AssignedAt(head + sql, key, before + PlaceholderCount(head), after)
  {
    var pre, post :| && sql == pre + Assignment(key) + post
                     && PlaceholderCount(pre) == before
                     && PlaceholderCount(post) == after;
    PlaceholdersOfConcat(head, pre);
    Regroup(head, pre, Assignment(key), post);
  }

  /** Text put behind an assignment adds its `?` characters behind it. */
  lemma AssignedBeforeTail(sql: string, tail: string, key: string, before: nat, after: nat)
    requires AssignedAt(sql, key, before, after)
    ensures AssignedAt(sql + tail, key, before, after + PlaceholderCount(tail))
  {
    var pre, post :| && sql == pre + Assignment(key) + post
                     && PlaceholderCount(pre) == before
                     && PlaceholderCount(post) == after;
    PlaceholdersOfConcat(post, tail);
    assert sql + tail == pre + Assignment(key) + (post + tail);
  }

  /** In the UPDATE text, key i's assignment follows the assignments of the keys
      before it and precedes those of the keys after it and the id's `?`. */
  lemma PartialUpdateAt(keys: seq<string>, values: seq<Value>, column: string, id: Value, i: nat)
    requires i < |keys|
    ensures AssignedAt(PartialUpdate(keys, values, column, id).sql, keys[i],
                       i + Occurrences(keys[..i], '?'),
                       |keys| - i + Occurrences(keys[i + 1..], '?') + PlaceholderCount(column))
  {
    SetClauseAt(keys, i);
    AssignedInStatement(SetClause(keys), keys[i], i + Occurrences(keys[..i], '?'),
                        |keys| - i - 1 + Occurrences(keys[i + 1..], '?'), column);
  }

  /** An assignment of the SET clause keeps its place in the UPDATE text: the
      WHERE clause adds the column's `?` characters and the id's behind it. */
  lemma AssignedInStatement(clause: string, key: string, before: nat, after: nat, column: string)
    requires AssignedAt(clause, key, before, after)
    ensures AssignedAt(UpdateHead + clause + WhereClause(column), key, before, after + PlaceholderCount(column) + 1)
  {
    UpdateHeadPlaceholders();
    AssignedAfterHead(UpdateHead, clause, key, before, after);
    WhereClausePlaceholders(column);
    AssignedBeforeTail(UpdateHead + clause, WhereClause(column), key, before, after);
  }

  /** When neither the keys nor the column contain `?`, the i-th `?` of the
      UPDATE text (counting from 0) is the one in key i's assignment, so it
      is bound to parameter i, the value of key i. */
  lemma PartialUpdatePairing(keys: seq<string>, values: seq<Value>, column: string, id: Value)
    ensures ('?' !in column && forall k :: 0 <= k < |keys| ==> '?' !in keys[k]) ==>
              forall i :: 0 <= i < |keys| ==>
                AssignedAt(PartialUpdate(keys, values, column, id).sql, keys[i], i, |keys| - i)
  {
    if '?' !in column && forall k :: 0 <= k < |keys| ==> '?' !in keys[k] {
      forall i | 0 <= i < |keys|
        ensures AssignedAt(PartialUpdate(keys, values, column, id).sql, keys[i], i, |keys| - i)
      {
        PartialUpdateAt(keys, values, column, id, i);
        assert forall k :: 0 <= k < i ==> keys[..i][k] == keys[k];
        NoOccurrences(keys[..i], '?');
        var later := keys[i + 1..];
        assert forall k :: 0 <= k < |later| ==> later[k] == keys[i + 1 + k];
        NoOccurrences(later, '?');
      }
    }
  }

  /** Keys are taken from the request as they come: a single key containing `?`
      anywhere in the list leaves the text with more `?` characters than
      parameters. */
  lemma QuestionMarkInKeyBreaksPairing(keys: seq<string>, values: seq<Value>, column: string, id: Value, k: nat)
    requires |values| == |keys| && k < |keys| && '?' in keys[k]
    ensures PlaceholderCount(PartialUpdate(keys, values, column, id).sql)
          > |PartialUpdate(keys, values, column, id).params|
  {
    PartialUpdatePlaceholders(keys, values, column, id);
    NoOccurrences(keys, '?');
  }
}
