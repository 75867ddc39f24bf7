/** `handleCheck`: the visible columns after a change in the column picker,
    re-derived from the canonical list. */
module VisibilityProjector {
  import opened Sequences
  import opened ColumnStore

  /** The `some` test of the picker match: a left-to-right scan of the
      checked entries that stops at the first whose `dataIndex` equals that
      of `c` (two absent `dataIndex` fields count as the same). */
  predicate IsChecked(c: Column, checked: seq<Column>): (b: bool)
    ensures b <==> exists e :: e in checked && e.dataIndex == c.dataIndex
    decreases |checked|
  {
    if |checked| == 0 then false
    else if checked[0].dataIndex == c.dataIndex then true
    else
      assert forall e :: e in checked[1..] ==> e in checked;
      assert forall e :: e in checked && e != checked[0] ==> e in checked[1..];
      IsChecked(c, checked[1..])
  }

  /** The canonical columns that are checked, in canonical order. Checked
      entries that match no canonical column contribute nothing. */
  function Project(original: seq<Column>, checked: seq<Column>): (r: seq<Column>)
    ensures IsSubsequence(r, original)
    ensures forall c :: multiset(r)[c] == if IsChecked(c, checked) then multiset(original)[c] else 0
    decreases |original|
  {
    if |original| == 0 then []
    else
      var rest := Project(original[1..], checked);
      assert original == [original[0]] + original[1..];
      if IsChecked(original[0], checked) then
        assert ([original[0]] + rest)[1..] == rest;
        [original[0]] + rest
      else rest
  }

  /** The two properties of `Project` determine it: any subsequence of the
      canonical list holding every checked column as often as the canonical
      list does, and no unchecked column, is the projection. */
  lemma {:induction false} ProjectIsUnique(r: seq<Column>, original: seq<Column>, checked: seq<Column>)
    requires IsSubsequence(r, original)
    requires forall c :: multiset(r)[c] == if IsChecked(c, checked) then multiset(original)[c] else 0
    ensures r == Project(original, checked)
    decreases |original|
  {
    if |original| == 0 {
      SubsequenceOfEmpty(r);
    } else {
      var x, rest := original[0], original[1..];
      assert original == [x] + rest;
      if IsChecked(x, checked) {
        assert multiset(r)[x] > 0;
        assert |r| > 0;
        if r[0] == x && IsSubsequence(r[1..], rest) {
          assert r == [x] + r[1..];
          forall c
            ensures multiset(r[1..])[c] == if IsChecked(c, checked) then multiset(rest)[c] else 0
          {
          }
          ProjectIsUnique(r[1..], rest, checked);
        } else {
          assert IsSubsequence(r, rest);
          SubsequenceMultiset(r, rest);
          assert false;
        }
      } else {
        assert x !in r by {
          assert multiset(r)[x] == 0;
        }
        if |r| > 0 {
          assert r[0] != x;
          assert IsSubsequence(r, rest);
        }
        forall c
          ensures multiset(r)[c] == if IsChecked(c, checked) then multiset(rest)[c] else 0
        {
          if IsChecked(c, checked) {
            assert c != x;
          }
        }
        ProjectIsUnique(r, rest, checked);
      }
    }
  }

  /** When every canonical column is checked, the projection is the
      canonical list itself, whatever order was shown before. */
  lemma ProjectAllIsCanonical(original: seq<Column>, checked: seq<Column>)
    requires forall i :: 0 <= i < |original| ==> IsChecked(original[i], checked)
    ensures Project(original, checked) == original
  {
    SubsequenceReflexive(original);
    forall c
      ensures multiset(original)[c] == if IsChecked(c, checked) then multiset(original)[c] else 0
    {
      if c in original {
        var i :| 0 <= i < |original| && original[i] == c;
      }
    }
    ProjectIsUnique(original, original, checked);
  }

  /** The projection depends on the checked list only through which
      canonical columns it matches: entries that match none are ignored. */
  lemma ProjectIgnoresUnmatchedChecks(original: seq<Column>, checked: seq<Column>, checked': seq<Column>)
    requires forall i :: 0 <= i < |original| ==> (IsChecked(original[i], checked) <==> IsChecked(original[i], checked'))
    ensures Project(original, checked) == Project(original, checked')
  {
    var r := Project(original, checked');
    forall c
      ensures multiset(r)[c] == if IsChecked(c, checked) then multiset(original)[c] else 0
    {
      if c in original {
        var i :| 0 <= i < |original| && original[i] == c;
      }
    }
    ProjectIsUnique(r, original, checked);
  }

  /** Projecting twice with the same checked list is projecting once. */
  lemma ProjectIdempotent(original: seq<Column>, checked: seq<Column>)
    ensures Project(Project(original, checked), checked) == Project(original, checked)
  {
    var r := Project(original, checked);
    forall i | 0 <= i < |r|
      ensures IsChecked(r[i], checked)
    {
      assert multiset(r)[r[i]] > 0;
    }
    ProjectAllIsCanonical(r, checked);
  }

  /** A subsequence of a well-keyed list is well-keyed. */
  lemma {:induction false} SubsequenceWellKeyed(a: seq<Column>, b: seq<Column>)
    requires IsSubsequence(a, b) && WellKeyed(b)
    ensures WellKeyed(a)
    decreases |b|
  {
    if |a| > 0 {
      assert b == [b[0]] + b[1..];
      assert WellKeyed(b[1..]) by {
        forall i, j | 0 <= i < j < |b[1..]|
          ensures b[1..][i].key != b[1..][j].key
        {
          assert b[i + 1].key != b[j + 1].key;
        }
      }
      if a[0] == b[0] && IsSubsequence(a[1..], b[1..]) {
        SubsequenceWellKeyed(a[1..], b[1..]);
        SubsequenceMultiset(a[1..], b[1..]);
        forall i, j | 0 <= i < j < |a|
          ensures a[i].key != a[j].key
        {
          if i == 0 {
            assert a[j] == a[1..][j - 1];
            assert a[j] in multiset(b[1..]);
            var k :| 0 <= k < |b[1..]| && b[1..][k] == a[j];
            assert b[0].key != b[k + 1].key;
          } else {
            assert a[1..][i - 1].key != a[1..][j - 1].key;
          }
        }
        assert a == [a[0]] + a[1..];
      } else {
        SubsequenceWellKeyed(a, b[1..]);
      }
    }
  }

  /** The projection of a well-keyed canonical list is well-keyed. */
  lemma ProjectPreservesWellKeyed(original: seq<Column>, checked: seq<Column>)
    requires WellKeyed(original)
    ensures WellKeyed(Project(original, checked))
  {
    SubsequenceWellKeyed(Project(original, checked), original);
  }
}
