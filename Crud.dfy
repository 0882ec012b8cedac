/** The read queries of the API: the SQL text and the parameter list that `get_infras`
    and `get_infra_detail` hand to DuckDB. Executing them is not modelled. */
module Crud {
  import opened Wrappers
  import opened Text

  /** A value bound to one `?` placeholder. */
  datatype Param = Str(s: string) | Num(n: int)

  /** A filter dictionary, in its iteration order: column name and the value it must equal. */
  type Filters = seq<(string, Param)>

  const BaseQuery: string := "SELECT * FROM all_infras"
  const PageClause: string := " LIMIT ? OFFSET ?"

  /** The columns a list may be sorted by. */
  const AllowedSortColumns: seq<string> := ["id", "location_name", "city", "source_system"]

  /** The entries of an optional filter dictionary; `None` has none. */
  function Entries(filters: Option<Filters>): Filters
  {
    if filters.Some? then filters.value else []
  }

  /** The sort column after validation: a requested column outside the allow-list is
      replaced by `id`. */
  function SortColumn(sortBy: string): (column: string)
    ensures column in AllowedSortColumns
    ensures column == sortBy || (column == "id" && sortBy !in AllowedSortColumns)
  {
    if sortBy in AllowedSortColumns then sortBy else "id"
  }

  /** The sort direction after validation, upper-cased: descending exactly when the
      request reads `desc` in any letter case, ascending otherwise. */
  function SortDirection(sortOrder: string): (direction: string)
    ensures direction == "ASC" || direction == "DESC"
    ensures direction == "DESC" <==> Lower(sortOrder) == "desc"
  {
    var order := if Lower(sortOrder) in ["asc", "desc"] then sortOrder else "asc";
    UpperOfLower(order);
    assert Upper("asc") == "ASC" && Upper("desc") == "DESC";
    Upper(order)
  }

  /** One `key = ?` clause per filter entry, in order. */
  function FilterClauses(entries: Filters): (clauses: seq<string>)
    ensures |clauses| == |entries|
    ensures forall i :: 0 <= i < |entries| ==>
      |clauses[i]| == |entries[i].0| + 4 && clauses[i][..|entries[i].0|] == entries[i].0
      && clauses[i][|entries[i].0|..] == " = ?"
  {
    seq(|entries|, i requires 0 <= i < |entries| => entries[i].0 + " = ?")
  }

  /** The filter values, in the order of their clauses. */
  function FilterValues(entries: Filters): (values: seq<Param>)
    ensures |values| == |entries|
    ensures forall i :: 0 <= i < |entries| ==> values[i] == entries[i].1
  {
    seq(|entries|, i requires 0 <= i < |entries| => entries[i].1)
  }

  /** The `WHERE` part: absent without filters, else the clauses joined by `AND`. */
  function WhereClause(entries: Filters): (where: string)
    ensures where == [] <==> entries == []
    ensures entries != [] ==> |where| > 7 && where[..7] == " WHERE "
  {
    if entries == [] then "" else " WHERE " + Join(FilterClauses(entries), " AND ")
  }

  /** The `ORDER BY` part, from the validated column and direction. It holds no placeholder:
      both words come from fixed lists. */
  function OrderClause(sortBy: string, sortOrder: string): (orderBy: string)
    ensures |orderBy| > 10 && orderBy[..10] == " ORDER BY "
    ensures Count('?', orderBy) == 0
  {
    var column, direction := SortColumn(sortBy), SortDirection(sortOrder);
    assert '?' !in column;
    assert '?' !in direction;
    CountAbsent('?', " ORDER BY " + column + " " + direction);
    " ORDER BY " + column + " " + direction
  }

  /** Keys are spliced into the text verbatim, so a key may carry placeholders of its own. */
  predicate KeysWithoutPlaceholders(entries: Filters)
  {
    forall i :: 0 <= i < |entries| ==> '?' !in entries[i].0
  }

  /** A piece of text free of placeholders followed by a piece holding one. */
  lemma OneAfterPlain(a: string, p: string)
    requires '?' !in a && '?' !in p
    ensures Count('?', a + (p + "?")) == 1
  {
    CountAbsent('?', a);
    CountOnlyLast('?', p);
    CountAppend('?', a, p + "?");
  }

  lemma PagePlaceholders()
    ensures Count('?', PageClause) == 2
  {
    assert PageClause == (" LIMIT " + "?") + (" OFFSET " + "?");
    OneAfterPlain("", " LIMIT ");
    OneAfterPlain("", " OFFSET ");
    assert "" + (" LIMIT " + "?") == " LIMIT " + "?";
    assert "" + (" OFFSET " + "?") == " OFFSET " + "?";
    CountAppend('?', " LIMIT " + "?", " OFFSET " + "?");
  }

  const DetailClause: string := " WHERE id = ?"

  lemma DetailPlaceholders()
    ensures Count('?', BaseQuery + DetailClause) == 1
  {
    assert DetailClause == " WHERE id = " + "?";
    OneAfterPlain(BaseQuery, " WHERE id = ");
  }

  lemma BasePlaceholders()
    ensures Count('?', BaseQuery) == 0
  {
    CountAbsent('?', BaseQuery);
  }

  /** Joined clauses that hold one placeholder each hold as many placeholders as clauses. */
  lemma {:induction false} JoinedPlaceholders(clauses: seq<string>)
    requires forall i :: 0 <= i < |clauses| ==> Count('?', clauses[i]) == 1
    ensures Count('?', Join(clauses, " AND ")) == |clauses|
  {
    if |clauses| > 1 {
      JoinedPlaceholders(clauses[1..]);
      CountAppend('?', clauses[0] + " AND ", Join(clauses[1..], " AND "));
      CountAppend('?', clauses[0], " AND ");
      CountAbsent('?', " AND ");
    }
  }

  /** The `WHERE` part holds one placeholder per filter when no key holds one itself. */
  lemma WherePlaceholders(entries: Filters)
    requires KeysWithoutPlaceholders(entries)
    ensures Count('?', WhereClause(entries)) == |entries|
  {
    if entries != [] {
      var clauses := FilterClauses(entries);
      forall i | 0 <= i < |clauses|
        ensures Count('?', clauses[i]) == 1
      {
        assert clauses[i] == entries[i].0 + " = " + "?";
        CountOnlyLast('?', entries[i].0 + " = ");
      }
      JoinedPlaceholders(clauses);
      CountAppend('?', " WHERE ", Join(clauses, " AND "));
      CountAbsent('?', " WHERE ");
    }
  }

  /** Placeholders of four consecutive pieces add up. */
  lemma CountFour(a: string, b: string, c: string, d: string)
    ensures Count('?', a + b + c + d) == Count('?', a) + Count('?', b) + Count('?', c) + Count('?', d)
  {
    CountAppend('?', a + b + c, d);
    CountAppend('?', a + b, c);
    CountAppend('?', a, b);
  }

  /** The list query holds one placeholder per filter entry plus the two of the page clause. */
  lemma ListPlaceholders(filters: Option<Filters>, sortBy: string, sortOrder: string)
    requires KeysWithoutPlaceholders(Entries(filters))
    ensures Count('?', BaseQuery + WhereClause(Entries(filters)) + OrderClause(sortBy, sortOrder) + PageClause)
      == |Entries(filters)| + 2
  {
    WherePlaceholders(Entries(filters));
    PagePlaceholders();
    BasePlaceholders();
    CountFour(BaseQuery, WhereClause(Entries(filters)), OrderClause(sortBy, sortOrder), PageClause);
  }

  /** The loop of `get_infras` over the filter entries: one `key = ?` clause and one
      value per entry, in the entries' order. */
  method CollectFilters(entries: Filters) returns (clauses: seq<string>, values: seq<Param>)
    ensures clauses == FilterClauses(entries)
    ensures values == FilterValues(entries)
  {
    clauses, values := [], [];
    var i := 0;
    while i < |entries|
      invariant 0 <= i <= |entries|
      invariant clauses == FilterClauses(entries[..i])
      invariant values == FilterValues(entries[..i])
    {
      var (key, value) := entries[i];
      clauses := clauses + [key + " = ?"];
      values := values + [value];
      i := i + 1;
    }
    assert entries[..i] == entries;
  }

  /** `get_infras`: builds the list query and its parameters. Filter entries become
      `key = ?` clauses joined by `AND` with their values appended in the same order;
      the sort column and direction are validated; `LIMIT ? OFFSET ?` and their two
      values close both. */
  method GetInfras(limit: int, offset: int, filters: Option<Filters>, sortBy: string, sortOrder: string)
    returns (query: string, params: seq<Param>)
    ensures query == BaseQuery + WhereClause(Entries(filters)) + OrderClause(sortBy, sortOrder) + PageClause
    ensures params == FilterValues(Entries(filters)) + [Num(limit), Num(offset)]
    ensures |params| == |Entries(filters)| + 2
    ensures KeysWithoutPlaceholders(Entries(filters)) ==> Count('?', query) == |params|
  {
    query := BaseQuery;
    params := [];
    var where := "";
    if filters.Some? && filters.value != [] {
      var clauses;
      clauses, params := CollectFilters(filters.value);
      where := " WHERE " + Join(clauses, " AND ");
      query := query + where;
    }
    assert where == WhereClause(Entries(filters));
    var column := sortBy;
    if sortBy !in AllowedSortColumns {
      column := "id";
    }
    var order := sortOrder;
    if Lower(sortOrder) !in ["asc", "desc"] {
      order := "asc";
    }
    var orderBy := " ORDER BY " + column + " " + Upper(order);
    assert orderBy == OrderClause(sortBy, sortOrder) by {
      assert column == SortColumn(sortBy);
      assert Upper(order) == SortDirection(sortOrder);
    }
    query := query + orderBy;
    query := query + PageClause;
    params := params + [Num(limit), Num(offset)];
    if KeysWithoutPlaceholders(Entries(filters)) {
      ListPlaceholders(filters, sortBy, sortOrder);
    }
  }

  /** Every list query reads the whole `all_infras` table and ends with the page clause,
      whose two placeholders are bound to the last two parameters, limit then offset. */
  lemma ListQueryShape(limit: int, offset: int, filters: Option<Filters>, sortBy: string, sortOrder: string)
    ensures var query := BaseQuery + WhereClause(Entries(filters)) + OrderClause(sortBy, sortOrder) + PageClause;
      |query| >= |BaseQuery| + |PageClause| &&
      query[..|BaseQuery|] == BaseQuery && query[|query| - |PageClause|..] == PageClause
  {
  }

  /** Without filters, or with an empty filter dictionary, there is no `WHERE` part and the
      only parameters are limit and offset. */
  lemma NoFiltersNoWhere(limit: int, offset: int, filters: Option<Filters>, sortBy: string, sortOrder: string)
    requires filters == None || filters == Some([])
    ensures WhereClause(Entries(filters)) == ""
    ensures FilterValues(Entries(filters)) + [Num(limit), Num(offset)] == [Num(limit), Num(offset)]
  {
  }

  /** `get_infra_detail`: a fixed query with a single placeholder, bound to the identifier. */
  function DetailQuery(identifier: string): (q: (string, seq<Param>))
    ensures q.0 == BaseQuery + " WHERE id = ?"
    ensures q.1 == [Str(identifier)]
    ensures Count('?', q.0) == |q.1|
    ensures |q.0| > |BaseQuery| && q.0[..|BaseQuery|] == BaseQuery
  {
    var query := BaseQuery + DetailClause;
    DetailPlaceholders();
    (query, [Str(identifier)])
  }
}
