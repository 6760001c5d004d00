/** The SQL operators the repository's queries are built from: the order of
    text values, `lower()`, `ILIKE '%term%'` and `OFFSET skip LIMIT limit`. */
module Sql {
  import opened Wrappers

  // ---------------------------------------------------------------------
  // Ordering of text columns
  // ---------------------------------------------------------------------

  /** Lexicographic order by character code (a binary collation). */
  predicate TextLe(s: string, t: string)
    decreases |s|
  {
    |s| == 0 || (|t| > 0 && (s[0] < t[0] || (s[0] == t[0] && TextLe(s[1..], t[1..]))))
  }

  lemma {:induction false} TextLeTotal(s: string, t: string)
    ensures TextLe(s, t) || TextLe(t, s)
    decreases |s|
  {
    if |s| > 0 && |t| > 0 && s[0] == t[0] {
      TextLeTotal(s[1..], t[1..]);
    }
  }

  lemma {:induction false} TextLeTransitive(s: string, t: string, u: string)
    requires TextLe(s, t) && TextLe(t, u)
    ensures TextLe(s, u)
    decreases |s|
  {
    if |s| > 0 && s[0] == t[0] && t[0] == u[0] {
      TextLeTransitive(s[1..], t[1..], u[1..]);
    }
  }

  lemma {:induction false} TextLeAntisymmetric(s: string, t: string)
    requires TextLe(s, t) && TextLe(t, s)
    ensures s == t
    decreases |s|
  {
    if |s| > 0 {
      TextLeAntisymmetric(s[1..], t[1..]);
      assert s == [s[0]] + s[1..] && t == [t[0]] + t[1..];
    }
  }

  /** Order of a nullable text column: NULL sorts before every text. */
  predicate NullableTextLe(s: Option<string>, t: Option<string>) {
    match s
    case None => true
    case Some(x) => t.Some? && TextLe(x, t.value)
  }

  lemma NullableTextLeTotal(s: Option<string>, t: Option<string>)
    ensures NullableTextLe(s, t) || NullableTextLe(t, s)
  {
    if s.Some? && t.Some? {
      TextLeTotal(s.value, t.value);
    }
  }

  lemma NullableTextLeTransitive(s: Option<string>, t: Option<string>, u: Option<string>)
    requires NullableTextLe(s, t) && NullableTextLe(t, u)
    ensures NullableTextLe(s, u)
  {
    if s.Some? {
      TextLeTransitive(s.value, t.value, u.value);
    }
  }

  // ---------------------------------------------------------------------
  // lower() and the sort direction
  // ---------------------------------------------------------------------

  /** `str.lower()` on one character, for the ASCII letters. */
  function LowerChar(c: char): char {
    if 'A' <= c <= 'Z' then (c as int + 32) as char else c
  }

  function Lower(s: string): string {
    seq(|s|, i requires 0 <= i < |s| => LowerChar(s[i]))
  }

  /** `sort_order.lower() == "desc"`. */
  predicate IsDescending(sortOrder: string) {
    Lower(sortOrder) == "desc"
  }

  /** "desc" is recognised in any mix of letter case, and nothing else is. */
  lemma DescendingInAnyCase(sortOrder: string)
    ensures IsDescending(sortOrder) <==>
      |sortOrder| == 4 && sortOrder[0] in "dD" && sortOrder[1] in "eE"
      && sortOrder[2] in "sS" && sortOrder[3] in "cC"
  {
    if |sortOrder| == 4 {
      var l := Lower(sortOrder);
      assert l == [l[0], l[1], l[2], l[3]];
      assert "desc" == ['d', 'e', 's', 'c'];
    } else {
      assert |Lower(sortOrder)| != |"desc"|;
    }
  }

  // ---------------------------------------------------------------------
  // ILIKE
  // ---------------------------------------------------------------------

  /** `s ILIKE pattern`: `%` matches any run of characters, `_` any one
      character, and every other pattern character matches a character that
      is equal to it after case folding with `fold`. */
  predicate ILike(s: string, pattern: string, fold: char -> char)
    decreases |pattern|, |s|
  {
    if |pattern| == 0 then |s| == 0
    else if pattern[0] == '%' then
      ILike(s, pattern[1..], fold) || (|s| > 0 && ILike(s[1..], pattern, fold))
    else
      |s| > 0 && (pattern[0] == '_' || fold(s[0]) == fold(pattern[0]))
      && ILike(s[1..], pattern[1..], fold)
  }

  /** The pattern `f"%{term}%"` that `search_books` builds. */
  function Surrounded(term: string): string {
    "%" + term + "%"
  }

  predicate NoWildcards(term: string) {
    forall i :: 0 <= i < |term| ==> term[i] != '%' && term[i] != '_'
  }

  /** `term` occurs in `s` at position `i`, up to case folding. */
  predicate OccursAt(s: string, i: int, term: string, fold: char -> char) {
    0 <= i && i + |term| <= |s| && forall j :: 0 <= j < |term| ==> fold(s[i + j]) == fold(term[j])
  }

  /** Case-insensitive substring containment: the reference for `ILIKE '%term%'`. */
  predicate ContainsFolded(s: string, term: string, fold: char -> char) {
    exists i :: 0 <= i <= |s| && OccursAt(s, i, term, fold)
  }

  lemma {:induction false} PercentMatchesAll(s: string, fold: char -> char)
    ensures ILike(s, "%", fold)
    decreases |s|
  {
    if |s| > 0 {
      PercentMatchesAll(s[1..], fold);
    }
  }

  /** A wildcard-free term followed by `%` matches exactly the strings it prefixes. */
  lemma {:induction false} PrefixThenPercent(s: string, term: string, fold: char -> char)
    requires NoWildcards(term)
    ensures ILike(s, term + "%", fold) <==> OccursAt(s, 0, term, fold)
    decreases |term|
  {
    if |term| == 0 {
      assert term + "%" == "%";
      PercentMatchesAll(s, fold);
    } else {
      var p := term + "%";
      assert p[0] == term[0];
      assert p[1..] == term[1..] + "%";
      if |s| > 0 {
        PrefixThenPercent(s[1..], term[1..], fold);
        if OccursAt(s, 0, term, fold) {
          assert fold(s[0]) == fold(term[0]) by { assert fold(s[0 + 0]) == fold(term[0]); }
          forall j | 0 <= j < |term[1..]|
            ensures fold(s[1..][0 + j]) == fold(term[1..][j])
          {
            assert fold(s[0 + (j + 1)]) == fold(term[j + 1]);
          }
        }
        if ILike(s, p, fold) {
          assert OccursAt(s[1..], 0, term[1..], fold);
          forall j | 0 <= j < |term|
            ensures fold(s[0 + j]) == fold(term[j])
          {
            if j > 0 {
              assert fold(s[1..][0 + (j - 1)]) == fold(term[1..][j - 1]);
            }
          }
        }
      }
    }
  }

  /** A leading `%` lets the rest of the pattern match any suffix. */
  lemma {:induction false} LeadingPercent(s: string, rest: string, fold: char -> char)
    ensures ILike(s, "%" + rest, fold) <==> exists i :: 0 <= i <= |s| && ILike(s[i..], rest, fold)
    decreases |s|
  {
    var p := "%" + rest;
    assert p[0] == '%' && p[1..] == rest;
    assert s[0..] == s;
    if |s| > 0 {
      LeadingPercent(s[1..], rest, fold);
      assert ILike(s, p, fold) == (ILike(s, rest, fold) || ILike(s[1..], p, fold));
      if ILike(s[1..], p, fold) {
        var i :| 0 <= i <= |s[1..]| && ILike(s[1..][i..], rest, fold);
        assert s[1..][i..] == s[i + 1..];
      }
      if exists i :: 0 <= i <= |s| && ILike(s[i..], rest, fold) {
        var i :| 0 <= i <= |s| && ILike(s[i..], rest, fold);
        if i > 0 {
          assert s[1..][i - 1..] == s[i..];
        } else {
          assert s[0..] == s;
        }
      }
    } else {
      if exists i :: 0 <= i <= |s| && ILike(s[i..], rest, fold) {
        var i :| 0 <= i <= |s| && ILike(s[i..], rest, fold);
        assert i == 0;
      }
    }
  }

  /** For a term without wildcards, `ILIKE '%term%'` is case-insensitive
      substring containment. */
  lemma SurroundedIsContainment(s: string, term: string, fold: char -> char)
    requires NoWildcards(term)
    ensures ILike(s, Surrounded(term), fold) <==> ContainsFolded(s, term, fold)
  {
    assert Surrounded(term) == "%" + (term + "%");
    LeadingPercent(s, term + "%", fold);
    if ILike(s, Surrounded(term), fold) {
      var i :| 0 <= i <= |s| && ILike(s[i..], term + "%", fold);
      PrefixThenPercent(s[i..], term, fold);
      forall j | 0 <= j < |term| ensures fold(s[i + j]) == fold(term[j]) {
        assert fold(s[i..][0 + j]) == fold(term[j]);
      }
      assert OccursAt(s, i, term, fold);
    }
    if ContainsFolded(s, term, fold) {
      var i :| 0 <= i <= |s| && OccursAt(s, i, term, fold);
      PrefixThenPercent(s[i..], term, fold);
      forall j | 0 <= j < |term| ensures fold(s[i..][0 + j]) == fold(term[j]) {
        assert fold(s[i + j]) == fold(term[j]);
      }
    }
  }

  // ---------------------------------------------------------------------
  // OFFSET / LIMIT
  // ---------------------------------------------------------------------

  /** How many of n rows OFFSET skip LIMIT limit returns. */
  function PageLength(n: nat, skip: nat, limit: nat): nat {
    if skip >= n then 0 else if skip + limit <= n then limit else n - skip
  }

  /** `OFFSET skip LIMIT limit`: the rows at positions skip .. skip+limit-1
      that exist. */
  function Page<T>(rows: seq<T>, skip: nat, limit: nat): (r: seq<T>)
    ensures |r| <= limit
    ensures |r| == PageLength(|rows|, skip, limit)
    ensures forall i :: 0 <= i < |r| ==> r[i] == rows[skip + i]
  {
    var lo := if skip < |rows| then skip else |rows|;
    var hi := if skip + limit < |rows| then skip + limit else |rows|;
    rows[lo..hi]
  }

  /** Consecutive pages tile the rows: page [skip, skip+k) followed by page
      [skip+k, skip+k+m) is page [skip, skip+k+m), with no row lost or repeated. */
  lemma ConsecutivePages<T>(rows: seq<T>, skip: nat, k: nat, m: nat)
    ensures Page(rows, skip, k) + Page(rows, skip + k, m) == Page(rows, skip, k + m)
  {
    var a, b, c := Page(rows, skip, k), Page(rows, skip + k, m), Page(rows, skip, k + m);
    assert |a + b| == |c|;
    forall i | 0 <= i < |c| ensures (a + b)[i] == c[i] {
      if i >= |a| {
        assert (a + b)[i] == b[i - |a|];
      }
    }
  }
}
