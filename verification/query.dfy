/**
 * `DB.select` from `CI/db.py`: the SQL text of a selection, assembled from
 * its parts. The connection and `pd.read_sql` are not part of this model.
 */
module Query {
  import opened Wrappers
  import opened Text

  /** `s` holds `seg` starting at position `i`. */
  predicate SegmentAt(s: string, i: nat, seg: string)
  {
    i + |seg| <= |s| && s[i..i + |seg|] == seg
  }

  /** The fixed head `select {what} from {table}`. */
  function Head(table: string, what: string): string
  {
    "select " + what + " from " + table
  }

  /** The text a clause adds: nothing when its argument is None. */
  function Clause(keyword: string, arg: Option<string>): (r: string)
    ensures arg.None? <==> r == []
  {
    if arg.None? then "" else " " + keyword + " " + arg.value
  }

  /** The text of the limit clause, the number as `str` writes it. */
  function LimitText(limit: Option<int>): Option<string>
  {
    if limit.None? then None else Some(IntToString(limit.value))
  }

  /**
   * `select(table, what, where, limit, order)`: the head, then the `where`,
   * `order by` and `limit` clauses in that fixed order (see `SelectClauses`).
   */
  function Select(table: string, what: string, where: Option<string>, limit: Option<int>, order: Option<string>): (r: string)
    ensures SegmentAt(r, 0, Head(table, what))
    ensures where.None? && order.None? && limit.None? ==> r == Head(table, what)
  {
    var h, w, o, l := Head(table, what), Clause("where", where), Clause("order by", order), Clause("limit", LimitText(limit));
    Layout(h, w, o, l);
    h + w + o + l
  }

  /** The `where` clause, when given, comes right after the head. */
  lemma SelectWhere(table: string, what: string, where: Option<string>, limit: Option<int>, order: Option<string>)
    requires where.Some?
    ensures SegmentAt(Select(table, what, where, limit, order), |Head(table, what)|, " where " + where.value)
  {
    var h, w, o, l := Head(table, what), Clause("where", where), Clause("order by", order), Clause("limit", LimitText(limit));
    Layout(h, w, o, l);
    assert w == " where " + where.value;
  }

  /** The `order by` clause, when given, comes right after the head and the `where` clause. */
  lemma SelectOrder(table: string, what: string, where: Option<string>, limit: Option<int>, order: Option<string>)
    requires order.Some?
    ensures SegmentAt(Select(table, what, where, limit, order), |Head(table, what)| + |Clause("where", where)|,
                      " order by " + order.value)
  {
    var h, w, o, l := Head(table, what), Clause("where", where), Clause("order by", order), Clause("limit", LimitText(limit));
    Layout(h, w, o, l);
    assert o == " order by " + order.value;
  }

  /** The `limit` clause, when given, comes after the other two and ends the text. */
  lemma SelectLimit(table: string, what: string, where: Option<string>, limit: Option<int>, order: Option<string>)
    requires limit.Some?
    ensures SegmentAt(Select(table, what, where, limit, order),
                      |Head(table, what)| + |Clause("where", where)| + |Clause("order by", order)|,
                      " limit " + IntToString(limit.value))
    ensures |Select(table, what, where, limit, order)|
      == |Head(table, what)| + |Clause("where", where)| + |Clause("order by", order)| + 7 + |IntToString(limit.value)|
  {
    var h, w, o, l := Head(table, what), Clause("where", where), Clause("order by", order), Clause("limit", LimitText(limit));
    Layout(h, w, o, l);
    assert l == " limit " + IntToString(limit.value);
  }

  /** Without a limit the text ends with the `order by` clause, or the one before it. */
  lemma SelectNoLimit(table: string, what: string, where: Option<string>, order: Option<string>)
    ensures |Select(table, what, where, None, order)|
      == |Head(table, what)| + |Clause("where", where)| + |Clause("order by", order)|
  {
  }

  /** Where each of four concatenated parts sits. */
  lemma Layout(h: string, w: string, o: string, l: string)
    ensures SegmentAt(h + w + o + l, 0, h)
    ensures SegmentAt(h + w + o + l, |h|, w)
    ensures SegmentAt(h + w + o + l, |h| + |w|, o)
    ensures SegmentAt(h + w + o + l, |h| + |w| + |o|, l)
  {
    var r := h + w + o + l;
    assert r[0..|h|] == h;
    assert r[|h|..|h| + |w|] == w;
    assert r[|h| + |w|..|h| + |w| + |o|] == o;
    assert r[|h| + |w| + |o|..|h| + |w| + |o| + |l|] == l;
  }

  /** `select(table, what)` with every argument left at its default: at most ten rows. */
  function SelectDefault(table: string, what: string): (r: string)
    ensures r == Head(table, what) + " limit 10"
  {
    assert IntToString(10) == "10" by {
      assert Digits(1) == "1" && Digits(0) == "0";
    }
    Select(table, what, None, Some(10), None)
  }

  /**
   * The number in the limit clause reads back as the limit: the clause
   * carries the row count asked for.
   */
  lemma LimitReadsBack(table: string, what: string, where: Option<string>, n: nat, order: Option<string>)
    ensures exists digits: string :: (
      && AllDigits(digits) && ParseDigits(digits) == n
      && var r := Select(table, what, where, Some(n), order);
         |r| >= |digits| + 7 && r[|r| - |digits| - 7..] == " limit " + digits)
  {
    var r := Select(table, what, where, Some(n), order);
    SelectLimit(table, what, where, Some(n), order);
    var digits := Digits(n);
    assert IntToString(n) == digits;
    ParseDigitsOfDigits(n);
    assert r[|r| - |digits| - 7..] == " limit " + digits;
  }
}
