/**
 * `QueryBuilder`: a SELECT statement built as a value (table, conditions in
 * the order they were added, optional order-by, limit and offset) and
 * rendered once, with clauses in the fixed order where, order by, limit,
 * offset. Also the whitespace normalisation the rendered text is compared
 * under.
 */
module QueryBuilder {
  import opened Wrappers
  import Decimal

  /**
   * An `AndCondition`: the text it contributes to the where clause and the
   * string parameters it binds, in order.
   */
  datatype Condition = Condition(queryPart: string, values: seq<string>) {

    /** `setParameters`: binds the values from `index` on and returns the next free index. */
    function SetParameters(p: map<int, string>, index: int): (r: (map<int, string>, int))
      ensures r.1 == index + |values|
      ensures forall k :: index <= k < index + |values| ==> k in r.0 && r.0[k] == values[k - index]
      ensures forall j :: j in p && !(index <= j < index + |values|) ==> j in r.0 && r.0[j] == p[j]
      ensures forall j :: j in r.0 ==> j in p || index <= j < index + |values|
      decreases |values|
    {
      if values == [] then (p, index)
      else
        var bound := p[index := values[0]];
        var rest := Condition(queryPart, values[1..]).SetParameters(bound, index + 1);
        assert index in bound && rest.0[index] == values[0];
        rest
    }
  }

  /** A condition `<field>=?` binding one string value. */
  function StringField(fieldName: string, hasValue: string): Condition {
    Condition(fieldName + "=?", [hasValue])
  }

  /** A single-field condition renders as `<field>=?`, binds exactly its value at `index`, and returns `index + 1`. */
  lemma StringFieldBindsOne(fieldName: string, hasValue: string, p: map<int, string>, index: int)
    ensures StringField(fieldName, hasValue).queryPart == fieldName + "=?"
    ensures StringField(fieldName, hasValue).SetParameters(p, index) == (p[index := hasValue], index + 1)
  {
    var r := StringField(fieldName, hasValue).SetParameters(p, index);
    assert r.0 == p[index := hasValue];
  }

  datatype Query = Query(
    tableName: string,
    andConditions: seq<Condition>,
    orderBy: Option<string>,
    limit: Option<int>,
    offset: Option<int>)
  {
    /** `andCondition`: one more condition, after those added before; nothing else changes. */
    function AndCondition(c: Condition): (r: Query)
      ensures r.andConditions == andConditions + [c]
      ensures r.(andConditions := andConditions) == this
    {
      this.(andConditions := andConditions + [c])
    }

    /** `orderBy`: sets the order-by expression; nothing else changes. */
    function OrderBy(orderBy: string): (r: Query)
      ensures r.orderBy == Some(orderBy)
      ensures r.(orderBy := this.orderBy) == this
    {
      this.(orderBy := Some(orderBy))
    }

    /** `limit`: sets the row limit; nothing else changes. */
    function Limit(limit: int): (r: Query)
      ensures r.limit == Some(limit)
      ensures r.(limit := this.limit) == this
    {
      this.(limit := Some(limit))
    }

    /** `offset`: sets the row offset; nothing else changes. */
    function Offset(offset: int): (r: Query)
      ensures r.offset == Some(offset)
      ensures r.(offset := this.offset) == this
    {
      this.(offset := Some(offset))
    }

    /** The select and its where clause. */
    function Selection(): string {
      "select * from " + tableName
      + (if andConditions == [] then "" else " where " + JoinParts(andConditions))
    }

    /** The clauses after the where clause, each only when it was requested, in the fixed order. */
    function Trailer(): string {
      (if orderBy.Some? then " order by " + orderBy.value else "")
      + (if limit.Some? then " limit " + Decimal.IntToString(limit.value) else "")
      + (if offset.Some? then " offset " + Decimal.IntToString(offset.value) else "")
    }

    /** `getQuery`: the SQL text, the select and where clause followed by the trailing clauses. */
    function GetQuery(): string {
      Selection() + Trailer()
    }
  }

  /** `selectFromTable`: a builder with no options, which renders the bare select. */
  function SelectFromTable(tableName: string): (r: Query)
    ensures r.tableName == tableName
    ensures r.GetQuery() == "select * from " + tableName
  {
    Query(tableName, [], None, None, None)
  }

  /** The query parts joined by " and ", as a joining collector does. */
  function JoinParts(cs: seq<Condition>): string
    requires cs != []
  {
    if |cs| == 1 then cs[0].queryPart else cs[0].queryPart + " and " + JoinParts(cs[1..])
  }

  /** Adding a condition extends the join at its end. */
  lemma {:induction false} JoinPartsAppend(cs: seq<Condition>, c: Condition)
    requires cs != []
    ensures JoinParts(cs + [c]) == JoinParts(cs) + " and " + c.queryPart
  {
    assert (cs + [c])[0] == cs[0];
    if |cs| > 1 {
      assert (cs + [c])[1..] == cs[1..] + [c];
      JoinPartsAppend(cs[1..], c);
    } else {
      assert (cs + [c])[1..] == [c];
    }
  }

  // ---------------------------------------------------------------------
  // Rendering, clause by clause.

  /**
   * The rendering always starts with the select of the table, and it is
   * exactly that select if and only if no option was set.
   */
  lemma StartsWithSelect(q: Query)
    ensures "select * from " + q.tableName <= q.GetQuery()
    ensures q.GetQuery() == "select * from " + q.tableName
        <==> q.andConditions == [] && q.orderBy.None? && q.limit.None? && q.offset.None?
  {
    var head := "select * from " + q.tableName;
    var where := if q.andConditions == [] then "" else " where " + JoinParts(q.andConditions);
    assert q.GetQuery() == head + (where + q.Trailer());
  }

  /**
   * A condition lands at the end of the where clause, as "where <part>" when
   * it is the first and as "and <part>" after the earlier ones, before any
   * order by, limit or offset, whatever the order of the builder calls. So
   * the conditions appear in the order they were added.
   */
  lemma AndConditionAppends(q: Query, c: Condition)
    ensures q.AndCondition(c).Selection() == q.Selection() + (if q.andConditions == [] then " where " else " and ") + c.queryPart
    ensures q.AndCondition(c).Trailer() == q.Trailer()
    ensures q.AndCondition(c).GetQuery() == q.AndCondition(c).Selection() + q.Trailer()
    ensures q.GetQuery() == q.Selection() + q.Trailer()
  {
    if q.andConditions != [] {
      JoinPartsAppend(q.andConditions, c);
    } else {
      assert q.AndCondition(c).andConditions == [c];
    }
  }

  /*
   * The renderings the builder's test expects. The test compares them with
   * `NonWhitespaceEquals`; they hold here character for character, which
   * implies that comparison.
   */

  lemma RendersBareAndOrdered()
    ensures SelectFromTable("table1").GetQuery() == "select * from table1"
    ensures SelectFromTable("table1").OrderBy("c1 asc").GetQuery() == "select * from table1 order by c1 asc"
  {
    var q := SelectFromTable("table1").OrderBy("c1 asc");
    assert q.Selection() == "select * from table1" by {
      assert "select * from " + "table1" == "select * from table1";
    }
    assert q.Trailer() == " order by c1 asc";
    assert "select * from table1" + " order by c1 asc" == "select * from table1 order by c1 asc";
  }

  lemma RendersOneCondition()
    ensures SelectFromTable("table1").AndCondition(StringField("field1", "a")).GetQuery()
         == "select * from table1 where field1=?"
  {
    var t, f1 := SelectFromTable("table1"), StringField("field1", "a");
    assert f1.queryPart == "field1=?";
    assert t.Selection() == "select * from table1" by {
      assert "select * from " + "table1" == "select * from table1";
    }
    assert t.Trailer() == "";
    AndConditionAppends(t, f1);
    assert "select * from table1" + " where " + "field1=?" == "select * from table1 where field1=?";
  }

  lemma RendersTwoConditions()
    ensures SelectFromTable("table1").AndCondition(StringField("field1", "a")).AndCondition(StringField("field2", "b")).GetQuery()
         == "select * from table1 where field1=? and field2=?"
  {
    var t1, f2 := SelectFromTable("table1").AndCondition(StringField("field1", "a")), StringField("field2", "b");
    var w1 := "select * from table1 where field1=?";
    assert f2.queryPart == "field2=?";
    RendersOneCondition();
    AndConditionAppends(t1, f2);
    assert w1 + " and " + "field2=?" == "select * from table1 where field1=? and field2=?";
  }

  lemma RendersLimitOrOffset()
    ensures SelectFromTable("table1").Limit(1).GetQuery() == "select * from table1 limit 1"
    ensures SelectFromTable("table1").Offset(2).GetQuery() == "select * from table1 offset 2"
  {
    Decimal.SmallNumbers();
  }

  lemma RendersLimitAndOffset()
    ensures SelectFromTable("table1").Limit(1).Offset(2).GetQuery() == "select * from table1 limit 1 offset 2"
  {
    Decimal.SmallNumbers();
  }

  lemma RendersEveryOption()
    ensures SelectFromTable("table1").AndCondition(StringField("field1", "a")).AndCondition(StringField("field2", "b"))
      .OrderBy("c1 asc").Limit(1).Offset(2).GetQuery()
      == "select * from table1 where field1=? and field2=? order by c1 asc limit 1 offset 2"
  {
    var t2 := SelectFromTable("table1").AndCondition(StringField("field1", "a")).AndCondition(StringField("field2", "b"));
    RendersTwoConditions();
    assert t2.Selection() == t2.GetQuery() by {
      assert t2.Trailer() == "";
    }
    ClausesInFixedOrder(t2, "c1 asc", 1, 2);
    Decimal.SmallNumbers();
    assert (" order by " + "c1 asc") + (" limit " + "1") + (" offset " + "2") == " order by c1 asc limit 1 offset 2";
    EveryOptionText();
  }

  /** The expected text of the last rendering, as the where part followed by the trailing clauses. */
  lemma EveryOptionText()
    ensures "select * from table1 where field1=? and field2=?" + " order by c1 asc limit 1 offset 2"
         == "select * from table1 where field1=? and field2=? order by c1 asc limit 1 offset 2"
  {
  }

  /**
   * Two conditions and every option, whatever their values: the where
   * clause joins the conditions in the order they were added, then come
   * order by, limit and offset.
   */
  lemma RendersTwoConditionsInOrder(tableName: string, c1: Condition, c2: Condition, orderBy: string, limit: int, offset: int)
    ensures SelectFromTable(tableName).AndCondition(c1).AndCondition(c2).OrderBy(orderBy).Limit(limit).Offset(offset).GetQuery()
         == ("select * from " + tableName)
            + (" where " + c1.queryPart + " and " + c2.queryPart)
            + ((" order by " + orderBy) + (" limit " + Decimal.IntToString(limit)) + (" offset " + Decimal.IntToString(offset)))
  {
    var q0 := SelectFromTable(tableName);
    var q1 := q0.AndCondition(c1);
    var q2 := q1.AndCondition(c2);
    var head := "select * from " + tableName;
    assert q0.Selection() == head + "" == head;
    assert q0.Trailer() == "";
    AndConditionAppends(q0, c1);
    AndConditionAppends(q1, c2);
    assert q2.Selection() == head + (" where " + c1.queryPart + " and " + c2.queryPart);
    ClausesInFixedOrder(q2, orderBy, limit, offset);
  }

  /** Every `assertNonWhitespaceEquals` of the builder's test holds. */
  lemma TestAssertionsHold()
    ensures NonWhitespaceEquals("select * from table1", SelectFromTable("table1").GetQuery())
    ensures NonWhitespaceEquals("select * from table1 order by c1 asc", SelectFromTable("table1").OrderBy("c1 asc").GetQuery())
    ensures NonWhitespaceEquals("select * from table1 where field1=?",
      SelectFromTable("table1").AndCondition(StringField("field1", "a")).GetQuery())
    ensures NonWhitespaceEquals("select * from table1 where field1=? and field2=?",
      SelectFromTable("table1").AndCondition(StringField("field1", "a")).AndCondition(StringField("field2", "b")).GetQuery())
    ensures NonWhitespaceEquals("select * from table1 limit 1", SelectFromTable("table1").Limit(1).GetQuery())
    ensures NonWhitespaceEquals("select * from table1 offset 2", SelectFromTable("table1").Offset(2).GetQuery())
    ensures NonWhitespaceEquals("select * from table1 limit 1 offset 2", SelectFromTable("table1").Limit(1).Offset(2).GetQuery())
    ensures NonWhitespaceEquals("select * from table1 where field1=? and field2=? order by c1 asc limit 1 offset 2",
      SelectFromTable("table1").AndCondition(StringField("field1", "a")).AndCondition(StringField("field2", "b"))
        .OrderBy("c1 asc").Limit(1).Offset(2).GetQuery())
  {
    RendersBareAndOrdered();
    RendersOneCondition();
    RendersTwoConditions();
    RendersLimitOrOffset();
    RendersLimitAndOffset();
    RendersEveryOption();
  }

  /**
   * Order by, limit and offset follow the where clause in that fixed order,
   * whatever options were set before and whatever the order of the builder
   * calls: a later call replaces the earlier value of its own option only.
   */
  lemma ClausesInFixedOrder(q: Query, orderBy: string, limit: int, offset: int)
    ensures q.OrderBy(orderBy).Limit(limit).Offset(offset).GetQuery()
         == q.Selection() + ((" order by " + orderBy) + (" limit " + Decimal.IntToString(limit)) + (" offset " + Decimal.IntToString(offset)))
    ensures q.Offset(offset).Limit(limit).OrderBy(orderBy).GetQuery()
         == q.OrderBy(orderBy).Limit(limit).Offset(offset).GetQuery()
  {
    var all := q.(orderBy := Some(orderBy), limit := Some(limit), offset := Some(offset));
    assert q.OrderBy(orderBy).Limit(limit).Offset(offset) == all;
    assert q.Offset(offset).Limit(limit).OrderBy(orderBy) == all;
    assert all.Selection() == q.Selection();
  }

  // ---------------------------------------------------------------------
  // Whitespace normalisation: `replaceAll("\\s+", " ")`.

  /** The characters of the regular-expression class `\s`. */
  predicate IsWhitespace(c: char) {
    c == ' ' || c == '\t' || c == '\n' || c == '\U{000B}' || c == '\U{000C}' || c == '\r'
  }

  /** The string without its leading run of whitespace. */
  function DropWhitespace(s: string): (r: string)
    ensures |r| <= |s|
    ensures r != [] ==> !IsWhitespace(r[0])
  {
    if s != [] && IsWhitespace(s[0]) then DropWhitespace(s[1..]) else s
  }

  /** Every maximal run of whitespace replaced by one space. */
  function Normalize(s: string): (r: string)
    ensures |r| <= |s|
    ensures s != [] ==> r != [] && r[0] == if IsWhitespace(s[0]) then ' ' else s[0]
    decreases |s|
  {
    if s == [] then []
    else if IsWhitespace(s[0]) then [' '] + Normalize(DropWhitespace(s[1..]))
    else [s[0]] + Normalize(s[1..])
  }

  /** Only single spaces as whitespace: no other whitespace character, no two in a row. */
  predicate IsNormal(s: string) {
    && (forall i :: 0 <= i < |s| && IsWhitespace(s[i]) ==> s[i] == ' ')
    && (forall i :: 0 < i < |s| && IsWhitespace(s[i]) ==> !IsWhitespace(s[i - 1]))
  }

  /** The test's comparison: equal once whitespace runs are collapsed. */
  predicate NonWhitespaceEquals(expected: string, actual: string) {
    Normalize(expected) == Normalize(actual)
  }

  /**
   * The test's comparison is equality on texts that are already normal, as
   * the expected texts and the renderings are.
   */
  lemma NormalTextsCompareExactly(expected: string, actual: string)
    requires IsNormal(expected) && IsNormal(actual)
    ensures NonWhitespaceEquals(expected, actual) <==> expected == actual
  {
    NormalizeFixesExactlyNormal(expected);
    NormalizeFixesExactlyNormal(actual);
  }

  /** The test's comparison does not see what a whitespace run is made of, nor how long it is. */
  lemma WhitespaceRunsCompareEqual(a: string, w1: string, w2: string, b: string)
    requires a == [] || !IsWhitespace(a[|a| - 1])
    requires w1 != [] && AllWhitespace(w1) && w2 != [] && AllWhitespace(w2)
    requires b == [] || !IsWhitespace(b[0])
    ensures NonWhitespaceEquals(a + (w1 + b), a + (w2 + b))
  {
    CollapsesRun(a, w1, b);
    CollapsesRun(a, w2, b);
  }

  /** Normalised text holds no whitespace but single spaces. */
  lemma {:induction false} NormalizeIsNormal(s: string)
    ensures IsNormal(Normalize(s))
    decreases |s|
  {
    if s != [] {
      var r := Normalize(s);
      var tail := if IsWhitespace(s[0]) then DropWhitespace(s[1..]) else s[1..];
      NormalizeIsNormal(tail);
      assert r == [r[0]] + Normalize(tail);
      assert forall i :: 1 <= i < |r| ==> r[i] == Normalize(tail)[i - 1];
    }
  }

  /** The strings normalisation leaves alone are exactly the normal ones. */
  lemma {:induction false} NormalizeFixesExactlyNormal(s: string)
    ensures Normalize(s) == s <==> IsNormal(s)
  {
    NormalizeIsNormal(s);
    if s != [] && IsNormal(s) {
      assert IsNormal(s[1..]);
      if IsWhitespace(s[0]) {
        assert DropWhitespace(s[1..]) == s[1..];
      }
      NormalizeFixesExactlyNormal(s[1..]);
    }
  }

  /** Normalising twice is normalising once. */
  lemma NormalizeIdempotent(s: string)
    ensures Normalize(Normalize(s)) == Normalize(s)
  {
    NormalizeIsNormal(s);
    NormalizeFixesExactlyNormal(Normalize(s));
  }

  lemma {:induction false} DropWhitespaceConcat(a: string, b: string)
    ensures a != [] && !IsWhitespace(a[|a| - 1]) ==> DropWhitespace(a + b) == DropWhitespace(a) + b
    ensures AllWhitespace(a) && (b == [] || !IsWhitespace(b[0])) ==> DropWhitespace(a + b) == b
  {
    if a != [] {
      assert (a + b)[0] == a[0];
      assert (a + b)[1..] == a[1..] + b;
      if IsWhitespace(a[0]) {
        DropWhitespaceConcat(a[1..], b);
      }
    }
  }

  lemma {:induction false} DropWhitespaceKeepsLast(s: string)
    requires s != [] && !IsWhitespace(s[|s| - 1])
    ensures DropWhitespace(s) != [] && DropWhitespace(s)[|DropWhitespace(s)| - 1] == s[|s| - 1]
  {
    if IsWhitespace(s[0]) {
      DropWhitespaceKeepsLast(s[1..]);
    }
  }

  /** Normalisation works run by run: text ending in a non-whitespace character is normalised on its own. */
  lemma {:induction false} NormalizeConcat(a: string, b: string)
    requires a == [] || !IsWhitespace(a[|a| - 1])
    ensures Normalize(a + b) == Normalize(a) + Normalize(b)
    decreases |a|
  {
    if a != [] {
      var ab := a + b;
      assert ab[0] == a[0];
      assert ab[1..] == a[1..] + b;
      if IsWhitespace(a[0]) {
        var tail := a[1..];
        assert tail != [] && tail[|tail| - 1] == a[|a| - 1];
        var rest := DropWhitespace(tail);
        DropWhitespaceConcat(tail, b);
        assert DropWhitespace(ab[1..]) == rest + b;
        DropWhitespaceKeepsLast(tail);
        NormalizeConcat(rest, b);
        assert Normalize(ab) == [' '] + Normalize(rest + b);
        assert Normalize(a) == [' '] + Normalize(rest);
      } else {
        var tail := a[1..];
        assert tail == [] || tail[|tail| - 1] == a[|a| - 1];
        NormalizeConcat(tail, b);
        assert Normalize(ab) == [a[0]] + Normalize(tail + b);
        assert Normalize(a) == [a[0]] + Normalize(tail);
      }
    } else {
      assert a + b == b;
    }
  }

  /**
   * A maximal run of whitespace, however long and whatever its characters,
   * becomes exactly one space.
   */
  lemma CollapsesRun(a: string, w: string, b: string)
    requires a == [] || !IsWhitespace(a[|a| - 1])
    requires w != [] && AllWhitespace(w)
    requires b == [] || !IsWhitespace(b[0])
    ensures Normalize(a + (w + b)) == Normalize(a) + (" " + Normalize(b))
  {
    LeadingRun(w, b);
    NormalizeConcat(a, w + b);
  }

  predicate AllWhitespace(w: string) {
    forall i :: 0 <= i < |w| ==> IsWhitespace(w[i])
  }

  lemma LeadingRun(w: string, b: string)
    requires w != [] && AllWhitespace(w)
    requires b == [] || !IsWhitespace(b[0])
    ensures Normalize(w + b) == " " + Normalize(b)
  {
    var wb := w + b;
    assert wb[0] == w[0];
    assert wb[1..] == w[1..] + b;
    DropWhitespaceConcat(w[1..], b);
  }
}
