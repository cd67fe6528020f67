/**
 * The store behind EmployeeCrud.kt, as a map from primary key (email) to entity, and the
 * meaning of its paged queries: keep the matching rows, order them by email ascending,
 * and return the `size` rows that start at offset `page * size`.
 */
module EmployeeCrud {
  import opened Wrappers
  import opened Text
  import opened Dates
  import opened Records

  type Store = map<string, EmployeeEntity>

  /** Each row is stored under its own email, the table's `@Id`. */
  predicate KeyedByEmail(db: Store) {
    forall k :: k in db ==> db[k].email == Some(k)
  }

  /** The row selections of the repository's query methods. */
  datatype Filter =
    | Everyone                                  // findAll
    | EmailEndingWith(suffix: string)           // findByEmailEndingWith
    | RoleIs(role: string)                      // :role = ANY(roles)
    | BirthDateBetween(start: Date, end: Date)  // birthDate BETWEEN :startDate AND :endDate
    | ManagerEmailIs(managerEmail: string)      // findAllByManagerEmail

  predicate Matches(f: Filter, e: EmployeeEntity) {
    match f
    case Everyone => true
    case EmailEndingWith(suffix) => e.email.Some? && EndsWith(e.email.value, suffix)
    case RoleIs(role) => e.roles.Some? && role in e.roles.value
    case BirthDateBetween(start, end) =>
      e.birthDate.Some? && NotAfter(start, e.birthDate.value) && NotAfter(e.birthDate.value, end)
    case ManagerEmailIs(m) => e.manager == Some(m)
  }

  function MatchingKeys(db: Store, f: Filter): (keys: set<string>)
    ensures forall k :: k in keys <==> k in db && Matches(f, db[k])
  {
    set k | k in db && Matches(f, db[k])
  }

  /** Every finite set of strings has a least element. */
  lemma {:induction false} LeastExists(keys: set<string>)
    requires keys != {}
    ensures exists m :: m in keys && forall k :: k in keys ==> LexLeq(m, k)
    decreases keys
  {
    var x :| x in keys;
    var rest := keys - {x};
    LexLeqReflexive(x);
    if rest == {} {
      assert keys == {x};
    } else {
      LeastExists(rest);
      var m :| m in rest && forall k :: k in rest ==> LexLeq(m, k);
      LexLeqTotal(x, m);
      if LexLeq(x, m) {
        forall k | k in keys ensures LexLeq(x, k) {
          if k != x {
            LexLeqTransitive(x, m, k);
          }
        }
        assert x in keys;
      } else {
        assert m in keys && forall k :: k in keys ==> LexLeq(m, k);
      }
    }
  }

  function LeastKey(keys: set<string>): (m: string)
    requires keys != {}
    ensures m in keys && forall k :: k in keys ==> LexLeq(m, k)
  {
    LeastExists(keys);
    LexLeqAntisymmetry();
    var m :| m in keys && forall k :: k in keys ==> LexLeq(m, k);
    m
  }

  predicate StrictlyAscending(s: seq<string>) {
    forall i, j :: 0 <= i < j < |s| ==> LexLess(s[i], s[j])
  }

  /** The keys in ascending order (`Sort.Direction.ASC, "email"`). */
  function SortedKeys(keys: set<string>): (s: seq<string>)
    ensures |s| == |keys|
    ensures forall k :: k in s <==> k in keys
    ensures StrictlyAscending(s)
    decreases keys
  {
    if keys == {} then []
    else
      var m := LeastKey(keys);
      [m] + SortedKeys(keys - {m})
  }

  /**
   * One page of a query: the matching rows in ascending email order, from offset
   * `page * size`, at most `size` of them. `PageRequest.of` throws unless `page >= 0` and
   * `size >= 1`.
   */
  function FindPage(db: Store, f: Filter, page: int, size: int): (r: seq<EmployeeEntity>)
    requires page >= 0 && size > 0
    requires KeyedByEmail(db)
    ensures |r| <= size
    ensures |r| == PageLength(|MatchingKeys(db, f)|, page * size, size)
    ensures forall i :: 0 <= i < |r| ==>
              r[i].email.Some? && r[i].email.value in db && db[r[i].email.value] == r[i] && Matches(f, r[i])
    ensures forall i :: 0 <= i < |r| ==> RankOf(MatchingKeys(db, f), r[i].email.value) == page * size + i
    ensures forall i, j :: 0 <= i < j < |r| ==> LexLess(r[i].email.value, r[j].email.value)
  {
    var matching := MatchingKeys(db, f);
    var keys := SortedKeys(matching);
    var window := Window(keys, page * size, size);
    WindowOfSortedKeys(matching, keys, page * size, size);
    RowsOf(db, window)
  }

  /** A window of the ascending keys is ascending, and its `i`-th key has rank `offset + i`. */
  lemma WindowOfSortedKeys(matching: set<string>, keys: seq<string>, offset: nat, size: nat)
    requires StrictlyAscending(keys) && (forall k :: k in keys <==> k in matching)
    ensures var window := Window(keys, offset, size);
            && StrictlyAscending(window)
            && forall i :: 0 <= i < |window| ==> window[i] in matching && RankOf(matching, window[i]) == offset + i
  {
    var window := Window(keys, offset, size);
    forall i, j | 0 <= i < j < |window| ensures LexLess(window[i], window[j]) {
      assert window[i] == keys[offset + i] && window[j] == keys[offset + j];
    }
    forall i | 0 <= i < |window| ensures window[i] in matching && RankOf(matching, window[i]) == offset + i {
      assert window[i] == keys[offset + i];
      RankInSortedKeys(matching, keys, offset + i);
    }
  }

  /** How many rows a page starting at `offset` holds when `count` rows match. */
  function PageLength(count: nat, offset: nat, size: nat): nat {
    if count <= offset then 0 else if count - offset < size then count - offset else size
  }

  /** The position `k` takes among `keys` in ascending order: how many keys sort before it. */
  function RankOf(keys: set<string>, k: string): nat {
    |set x | x in keys && LexLess(x, k)|
  }

  /** In the ascending sequence of a set's members, the member at position `j` has rank `j`. */
  lemma RankInSortedKeys(keys: set<string>, s: seq<string>, j: int)
    requires StrictlyAscending(s) && (forall k :: k in s <==> k in keys)
    requires 0 <= j < |s|
    ensures RankOf(keys, s[j]) == j
  {
    var before := set x | x in keys && LexLess(x, s[j]);
    assert before == set x | x in s[..j] by {
      forall x | x in before ensures x in s[..j] {
        var i :| 0 <= i < |s| && s[i] == x;
        if i >= j {
          if i > j {
            assert LexLeq(s[j], s[i]) && LexLeq(s[i], s[j]);
            LexLeqAntisymmetric(s[i], s[j]);
          }
          assert false;
        }
        assert s[..j][i] == x;
      }
      forall x | x in s[..j] ensures x in before {
        var i :| 0 <= i < j && s[..j][i] == x;
        assert LexLess(s[i], s[j]);
      }
    }
    DistinctCardinality(s[..j]);
  }

  /** A sequence without repeats has as many distinct members as it has items. */
  lemma {:induction false} DistinctCardinality(s: seq<string>)
    requires StrictlyAscending(s)
    ensures |set x | x in s| == |s|
  {
    if |s| > 0 {
      var init := s[..|s| - 1];
      DistinctCardinality(init);
      assert (set x | x in s) == (set x | x in init) + {s[|s| - 1]};
      assert s[|s| - 1] !in init by {
        forall i | 0 <= i < |init| ensures init[i] != s[|s| - 1] {
          assert LexLess(s[i], s[|s| - 1]);
        }
      }
    }
  }

  /** The part of `s` a page covers: at most `size` items from `offset` on. */
  function Window<T>(s: seq<T>, offset: nat, size: nat): (w: seq<T>)
    ensures |w| == if |s| <= offset then 0 else if |s| - offset < size then |s| - offset else size
    ensures forall i :: 0 <= i < |w| ==> w[i] == s[offset + i]
  {
    var from := if offset < |s| then offset else |s|;
    var to := if from + size < |s| then from + size else |s|;
    s[from..to]
  }

  /** The rows stored under an ascending run of matching keys, in that order. */
  function RowsOf(db: Store, keys: seq<string>): (r: seq<EmployeeEntity>)
    requires KeyedByEmail(db)
    requires forall i :: 0 <= i < |keys| ==> keys[i] in db
    ensures |r| == |keys|
    ensures forall i :: 0 <= i < |r| ==> r[i] == db[keys[i]] && r[i].email == Some(keys[i])
  {
    seq(|keys|, i requires 0 <= i < |keys| => db[keys[i]])
  }

  /** Nothing is lost to paging: every matching row is on some page, at the place its rank says. */
  lemma EveryMatchIsOnSomePage(db: Store, f: Filter, size: int, k: string)
    requires size > 0 && KeyedByEmail(db)
    requires k in db && Matches(f, db[k])
    ensures exists page :: page >= 0 && db[k] in FindPage(db, f, page, size)
  {
    var matching := MatchingKeys(db, f);
    var rank := RankOf(matching, k);
    RankBelowCount(matching, k);
    var page, offset := PageContaining(rank, size);
    var r := FindPage(db, f, page, size);
    var i := rank - offset;
    assert 0 <= i < |r|;
    RanksAreDistinct(matching, k, r[i].email.value);
    assert r[i] == db[k];
  }

  /** A key ranks below the number of keys. */
  lemma RankBelowCount(keys: set<string>, k: string)
    requires k in keys
    ensures RankOf(keys, k) < |keys|
  {
    var before := set x | x in keys && LexLess(x, k);
    assert before <= keys - {k};
    SubsetCardinality(before, keys - {k});
  }

  /** Two different keys of a set have different ranks. */
  lemma RanksAreDistinct(keys: set<string>, a: string, b: string)
    requires a in keys && b in keys && RankOf(keys, a) == RankOf(keys, b)
    ensures a == b
  {
    if a != b {
      LexLeqTotal(a, b);
      if LexLeq(a, b) {
        RankGrows(keys, a, b);
      } else {
        RankGrows(keys, b, a);
      }
    }
  }

  /** A key that sorts before another has the smaller rank. */
  lemma RankGrows(keys: set<string>, a: string, b: string)
    requires a in keys && LexLess(a, b)
    ensures RankOf(keys, a) < RankOf(keys, b)
  {
    var beforeA := set x | x in keys && LexLess(x, a);
    var beforeB := set x | x in keys && LexLess(x, b);
    forall x | x in beforeA ensures x in beforeB {
      LexLeqTransitive(x, a, b);
      if x == b {
        LexLeqAntisymmetric(a, b);
      }
    }
    assert a in beforeB - beforeA;
    SubsetCardinality(beforeA, beforeB - {a});
  }

  /** A subset is no larger than the set that holds it. */
  lemma {:induction false} SubsetCardinality(a: set<string>, b: set<string>)
    requires a <= b
    ensures |a| <= |b|
    decreases b
  {
    if a != {} {
      var x :| x in a;
      SubsetCardinality(a - {x}, b - {x});
    }
  }

  /** The page that holds position `idx`, and where that page starts. */
  lemma PageContaining(idx: nat, size: int) returns (page: nat, offset: nat)
    requires size > 0
    ensures offset == page * size && offset <= idx < offset + size
  {
    page := idx / size;
    offset := page * size;
  }

  /** A store with no rows has no matches on any page. */
  lemma EmptyStoreHasEmptyPages(f: Filter, page: int, size: int)
    requires page >= 0 && size > 0
    ensures FindPage(map[], f, page, size) == []
  {
    assert MatchingKeys(map[], f) == {};
  }
}
