/** The abstract record store: a table is a sequence of rows, a filter is
    a value `f` together with the predicate `matches` that decides whether a
    row satisfies it. `Count` is `query(...).filter(...).count()`,
    `FirstMatch` is `.first()`, `Remove` is `session.delete(row)`, and
    `SelectOne` is the retry-until-exactly-one-match loop shared by every
    `select_*` function of the program. */
module Table {
  import opened Wrappers

  /** Number of rows of `rows` that satisfy filter `f`. */
  function Count<R, F>(rows: seq<R>, f: F, matches: (R, F) -> bool): (n: nat)
    ensures n <= |rows|
  {
    if rows == [] then 0
    else (if matches(rows[0], f) then 1 else 0) + Count(rows[1..], f, matches)
  }

  /** Row `i` is the only row of `rows` that satisfies `f`. */
  ghost predicate OnlyMatch<R, F>(rows: seq<R>, f: F, matches: (R, F) -> bool, i: int) {
    0 <= i < |rows| && matches(rows[i], f) &&
    forall j :: 0 <= j < |rows| && matches(rows[j], f) ==> j == i
  }

  /** A count of zero means no row matches, and conversely. */
  lemma {:induction false} CountZero<R, F>(rows: seq<R>, f: F, matches: (R, F) -> bool)
    ensures Count(rows, f, matches) == 0 <==> forall i :: 0 <= i < |rows| ==> !matches(rows[i], f)
  {
    if rows != [] {
      CountZero(rows[1..], f, matches);
      if Count(rows, f, matches) == 0 {
        forall i | 0 <= i < |rows| ensures !matches(rows[i], f) {
          if i > 0 { assert rows[i] == rows[1..][i - 1]; }
        }
      } else if !matches(rows[0], f) {
        var i :| 0 <= i < |rows[1..]| && matches(rows[1..][i], f);
        assert rows[i + 1] == rows[1..][i];
      }
    }
  }

  /** A count of exactly one means that exactly one row matches, and conversely. */
  lemma {:induction false} CountOne<R, F>(rows: seq<R>, f: F, matches: (R, F) -> bool)
    ensures Count(rows, f, matches) == 1 <==> exists i :: OnlyMatch(rows, f, matches, i)
  {
    if rows != [] {
      var tail := rows[1..];
      CountOne(tail, f, matches);
      CountZero(tail, f, matches);
      assert forall j :: 0 <= j < |tail| ==> tail[j] == rows[j + 1];
      if matches(rows[0], f) {
        if exists i :: OnlyMatch(rows, f, matches, i) {
          var i :| OnlyMatch(rows, f, matches, i);
          assert forall j :: 0 <= j < |tail| ==> !matches(tail[j], f);
        }
        if Count(tail, f, matches) == 0 {
          assert OnlyMatch(rows, f, matches, 0);
        }
      } else {
        if exists i :: OnlyMatch(rows, f, matches, i) {
          var i :| OnlyMatch(rows, f, matches, i);
          assert OnlyMatch(tail, f, matches, i - 1);
        }
        if exists i :: OnlyMatch(tail, f, matches, i) {
          var i :| OnlyMatch(tail, f, matches, i);
          assert OnlyMatch(rows, f, matches, i + 1);
        }
      }
    }
  }

  /** The row `.first()` returns: a row that satisfies `f`. The program
      promises no row order here; every caller asks only after a count of 1,
      when the matching row is the only one, and the model takes the
      earliest in table order. */
  function FirstMatch<R, F>(rows: seq<R>, f: F, matches: (R, F) -> bool): (i: nat)
    requires Count(rows, f, matches) > 0
    ensures i < |rows| && matches(rows[i], f)
    ensures forall j :: 0 <= j < i ==> !matches(rows[j], f)
  {
    if matches(rows[0], f) then 0
    else
      var i := FirstMatch(rows[1..], f, matches);
      assert forall j :: 0 < j <= i ==> rows[j] == rows[1..][j - 1];
      i + 1
  }

  /** Position of the first occurrence of `x` in `rows`. */
  function IndexOf<R(==)>(rows: seq<R>, x: R): (i: nat)
    requires x in rows
    ensures i < |rows| && rows[i] == x && x !in rows[..i]
  {
    if rows[0] == x then 0
    else
      var i := IndexOf(rows[1..], x);
      assert rows[..i + 1] == [rows[0]] + rows[1..][..i];
      i + 1
  }

  /** The table after `session.delete(x)`: the first occurrence of `x` is
      gone and every other row keeps its place in the order. */
  function Remove<R(==)>(rows: seq<R>, x: R): (r: seq<R>)
    requires x in rows
    ensures multiset(r) == multiset(rows) - multiset{x}
    ensures |r| == |rows| - 1
  {
    var i := IndexOf(rows, x);
    assert rows == rows[..i] + [x] + rows[i + 1..];
    rows[..i] + rows[i + 1..]
  }

  /** Removing a row leaves exactly the other rows, in their original order. */
  lemma RemoveKeepsOthers<R>(rows: seq<R>, x: R, i: nat)
    requires i < |rows| && rows[i] == x && x !in rows[..i]
    ensures Remove(rows, x) == rows[..i] + rows[i + 1..]
  {
    var k := IndexOf(rows, x);
    assert forall j :: 0 <= j < i ==> rows[..i][j] == rows[j];
    assert forall j :: 0 <= j < k ==> rows[..k][j] == rows[j];
  }

  /** `rows` satisfy `distinct` pairwise: what a set of unique constraints
      declares about a table. */
  ghost predicate Pairwise<R>(rows: seq<R>, distinct: (R, R) -> bool) {
    forall i, j :: 0 <= i < j < |rows| ==> distinct(rows[i], rows[j])
  }

  /** Appending a row that differs from every stored row keeps the table pairwise distinct. */
  lemma AppendKeepsPairwise<R>(rows: seq<R>, x: R, distinct: (R, R) -> bool)
    requires Pairwise(rows, distinct)
    requires forall i :: 0 <= i < |rows| ==> distinct(rows[i], x)
    ensures Pairwise(rows + [x], distinct)
  {
    var s := rows + [x];
    forall i, j | 0 <= i < j < |s| ensures distinct(s[i], s[j]) {
      assert s[i] == rows[i];
      if j < |rows| { assert s[j] == rows[j]; }
    }
  }

  /** Deleting a row keeps the table pairwise distinct, and a row that is
      distinct from nothing equal to it occurs only once, so it is gone. */
  lemma RemoveKeepsPairwise<R>(rows: seq<R>, x: R, distinct: (R, R) -> bool)
    requires Pairwise(rows, distinct) && x in rows && !distinct(x, x)
    ensures Pairwise(Remove(rows, x), distinct)
    ensures x !in Remove(rows, x)
  {
    var i := IndexOf(rows, x);
    RemoveKeepsOthers(rows, x, i);
    var s := rows[..i] + rows[i + 1..];
    assert forall k :: 0 <= k < |s| ==> s[k] == rows[if k < i then k else k + 1];
  }

  /** What a completed or still-waiting selection loop has established:
      every missed attempt counted other than one match, and a returned row
      is the one row that matches the attempt that ended the loop. */
  ghost predicate Selected<R, F>(rows: seq<R>, matches: (R, F) -> bool, attempts: seq<F>, r: Prompted<R>, misses: nat) {
    && misses <= |attempts|
    && (forall k :: 0 <= k < misses ==> Count(rows, attempts[k], matches) != 1)
    && (r.Waiting? <==> misses == |attempts|)
    && (r.Done? ==> Count(rows, attempts[misses], matches) == 1 && r.value in rows && matches(r.value, attempts[misses]))
  }

  /** The selection loop's outcome depends only on the table and the input:
      two runs over the same attempts end after the same number of misses
      with the same row. */
  lemma SelectedIsDeterministic<R, F>(rows: seq<R>, matches: (R, F) -> bool, attempts: seq<F>,
                                      a: R, m: nat, b: R, n: nat)
    requires Selected(rows, matches, attempts, Done(a), m)
    requires Selected(rows, matches, attempts, Done(b), n)
    ensures m == n && a == b
  {
    CountOne(rows, attempts[m], matches);
    var i :| OnlyMatch(rows, attempts[m], matches, i);
    var ja :| 0 <= ja < |rows| && rows[ja] == a;
    var jb :| 0 <= jb < |rows| && rows[jb] == b;
  }

  /** In a table whose rows are pairwise `distinct`, a filter that two
      `distinct` rows can never both satisfy matches at most one row. */
  lemma {:induction false} CountAtMostOne<R, F>(rows: seq<R>, f: F, matches: (R, F) -> bool, distinct: (R, R) -> bool)
    requires Pairwise(rows, distinct)
    requires forall x, y :: matches(x, f) && matches(y, f) ==> !distinct(x, y)
    ensures Count(rows, f, matches) <= 1
  {
    if rows != [] {
      var tail := rows[1..];
      assert forall j :: 0 <= j < |tail| ==> tail[j] == rows[j + 1];
      CountAtMostOne(tail, f, matches, distinct);
      if matches(rows[0], f) {
        CountZero(tail, f, matches);
      }
    }
  }

  /** The retry-until-exactly-one loop of every `select_*` function:
      attempt after attempt, count the rows matching the entered filter;
      a count other than 1 (none or several) is a miss that prints the same
      message and asks again; a count of 1 ends the loop and `.first()`
      gives the row. `misses` is the number of messages printed. */
  method SelectOne<R, F>(rows: seq<R>, matches: (R, F) -> bool, attempts: seq<F>)
    returns (r: Prompted<nat>, misses: nat)
    ensures misses <= |attempts|
    ensures forall k :: 0 <= k < misses ==> Count(rows, attempts[k], matches) != 1
    ensures r.Waiting? <==> misses == |attempts|
    ensures r.Done? ==> Count(rows, attempts[misses], matches) == 1
    ensures r.Done? ==> OnlyMatch(rows, attempts[misses], matches, r.value)
  {
    var found := false;
    var i := 0;
    while !found && i < |attempts|
      invariant 0 <= i <= |attempts|
      invariant found ==> 0 < i && Count(rows, attempts[i - 1], matches) == 1
      invariant forall k :: 0 <= k < (if found then i - 1 else i) ==> Count(rows, attempts[k], matches) != 1
    {
      var n := Count(rows, attempts[i], matches);
      found := n == 1;
      i := i + 1;
    }
    if found {
      misses := i - 1;
      var first := FirstMatch(rows, attempts[misses], matches);
      CountOne(rows, attempts[misses], matches);
      r := Done(first);
    } else {
      misses := i;
      r := Waiting;
    }
  }
}
