/** Metric labels of App/backend/metrics.py. A label dictionary is its item
    list, a sequence of (name, value) pairs; `labels or {}` with `labels` left
    out is the empty sequence. Everything the collector derives from labels
    goes through `sorted(labels.items())`, modelled here by an insertion sort
    under Python's ordering of string pairs. */
module Labels {
  import opened Common
  import opened Text

  type Label = (string, string)

  /** Python's `<` on `str`: code point by code point, a proper prefix first. */
  predicate StrLess(a: string, b: string)
    decreases |a|
  {
    if a == [] then b != []
    else if b == [] then false
    else if a[0] != b[0] then a[0] < b[0]
    else StrLess(a[1..], b[1..])
  }

  lemma {:induction false} StrLessIrreflexive(a: string)
    ensures !StrLess(a, a)
  {
    if a != [] {
      StrLessIrreflexive(a[1..]);
    }
  }

  lemma {:induction false} StrLessTransitive(a: string, b: string, c: string)
    requires StrLess(a, b) && StrLess(b, c)
    ensures StrLess(a, c)
  {
    if a != [] && b != [] && c != [] && a[0] == b[0] && b[0] == c[0] {
      StrLessTransitive(a[1..], b[1..], c[1..]);
    }
  }

  lemma {:induction false} StrLessTotal(a: string, b: string)
    ensures a == b || StrLess(a, b) || StrLess(b, a)
  {
    if a != [] && b != [] && a[0] == b[0] {
      StrLessTotal(a[1..], b[1..]);
      if a[1..] == b[1..] {
        assert a == [a[0]] + a[1..] && b == [b[0]] + b[1..];
      }
    }
  }

  lemma StrLessAsymmetric(a: string, b: string)
    requires StrLess(a, b)
    ensures !StrLess(b, a)
  {
    if StrLess(b, a) {
      StrLessTransitive(a, b, a);
      StrLessIrreflexive(a);
    }
  }

  /** Python's `<` on `(str, str)` tuples: by name, then by value. */
  predicate LabelLess(p: Label, q: Label)
  {
    StrLess(p.0, q.0) || (p.0 == q.0 && StrLess(p.1, q.1))
  }

  predicate LabelLe(p: Label, q: Label)
  {
    !LabelLess(q, p)
  }

  lemma LabelLessAsymmetric(p: Label, q: Label)
    requires LabelLess(p, q)
    ensures !LabelLess(q, p)
  {
    if StrLess(p.0, q.0) {
      StrLessAsymmetric(p.0, q.0);
      StrLessIrreflexive(p.0);
    } else {
      StrLessIrreflexive(p.0);
      StrLessAsymmetric(p.1, q.1);
    }
  }

  lemma LabelLeReflexive(p: Label)
    ensures LabelLe(p, p)
  {
    StrLessIrreflexive(p.0);
    StrLessIrreflexive(p.1);
  }

  lemma LabelLeTotal(p: Label, q: Label)
    ensures LabelLe(p, q) || LabelLe(q, p)
  {
    if LabelLess(p, q) {
      LabelLessAsymmetric(p, q);
    }
  }

  lemma LabelLeAntisymmetric(p: Label, q: Label)
    requires LabelLe(p, q) && LabelLe(q, p)
    ensures p == q
  {
    StrLessTotal(p.0, q.0);
    StrLessTotal(p.1, q.1);
  }

  lemma LabelLeTransitive(p: Label, q: Label, r: Label)
    requires LabelLe(p, q) && LabelLe(q, r)
    ensures LabelLe(p, r)
  {
    if LabelLess(r, p) {
      StrLessTotal(p.0, q.0);
      StrLessTotal(q.0, r.0);
      StrLessTotal(p.1, q.1);
      StrLessTotal(q.1, r.1);
      if StrLess(r.0, p.0) {
        if StrLess(p.0, q.0) { StrLessTransitive(r.0, p.0, q.0); }
        if StrLess(q.0, r.0) { StrLessTransitive(q.0, r.0, p.0); }
      } else {
        if StrLess(p.0, q.0) { StrLessTransitive(r.0, p.0, q.0); }
        if StrLess(q.0, r.0) { StrLessTransitive(q.0, r.0, p.0); }
        if p.0 == q.0 && StrLess(r.1, p.1) {
          if StrLess(p.1, q.1) { StrLessTransitive(r.1, p.1, q.1); }
          if StrLess(q.1, r.1) { StrLessTransitive(q.1, r.1, p.1); }
        }
      }
    }
  }

  predicate Sorted(s: seq<Label>)
  {
    forall i, j :: 0 <= i < j < |s| ==> LabelLe(s[i], s[j])
  }

  /** A Python dict: no name occurs twice. */
  predicate DistinctNames(l: seq<Label>)
  {
    forall i, j :: 0 <= i < j < |l| ==> l[i].0 != l[j].0
  }

  /** Place `p` before the first entry that is not smaller than it. */
  function Insert(p: Label, s: seq<Label>): (r: seq<Label>)
    ensures |r| == |s| + 1
    ensures multiset(r) == multiset(s) + multiset{p}
  {
    if s == [] then [p]
    else if LabelLess(s[0], p) then
      assert s == [s[0]] + s[1..];
      [s[0]] + Insert(p, s[1..])
    else [p] + s
  }

  lemma {:induction false} InsertSorted(p: Label, s: seq<Label>)
    requires Sorted(s)
    ensures Sorted(Insert(p, s))
  {
    if s != [] {
      var r := Insert(p, s);
      if LabelLess(s[0], p) {
        var t := Insert(p, s[1..]);
        InsertSorted(p, s[1..]);
        forall k | 0 <= k < |t| ensures LabelLe(s[0], t[k]) {
          assert t[k] in multiset(s[1..]) + multiset{p};
          if t[k] == p {
            LabelLessAsymmetric(s[0], p);
          } else {
            assert t[k] in s[1..];
          }
        }
      } else {
        forall k | 0 < k < |s| ensures LabelLe(p, s[k]) {
          LabelLeTransitive(p, s[0], s[k]);
        }
      }
    }
  }

  /** `sorted(labels.items())`. */
  function SortLabels(l: seq<Label>): (r: seq<Label>)
    ensures |r| == |l|
    ensures multiset(r) == multiset(l)
  {
    if l == [] then []
    else
      assert l == [l[0]] + l[1..];
      Insert(l[0], SortLabels(l[1..]))
  }

  lemma {:induction false} SortLabelsSorted(l: seq<Label>)
    ensures Sorted(SortLabels(l))
  {
    if l != [] {
      SortLabelsSorted(l[1..]);
      InsertSorted(l[0], SortLabels(l[1..]));
    }
  }

  lemma SortedHeadIsLeast(x: seq<Label>, p: Label)
    requires Sorted(x) && p in multiset(x)
    ensures x != [] && LabelLe(x[0], p)
  {
    var i :| 0 <= i < |x| && x[i] == p;
    if i == 0 {
      LabelLeReflexive(p);
    }
  }

  /** A sorted sequence is determined by its elements. */
  lemma {:induction false} SortedUnique(x: seq<Label>, y: seq<Label>)
    requires Sorted(x) && Sorted(y) && multiset(x) == multiset(y)
    ensures x == y
  {
    if x != [] {
      SortedHeadIsLeast(y, x[0]);
      SortedHeadIsLeast(x, y[0]);
      LabelLeAntisymmetric(x[0], y[0]);
      assert x == [x[0]] + x[1..] && y == [y[0]] + y[1..];
      assert multiset(x[1..]) == multiset(x) - multiset{x[0]};
      assert multiset(y[1..]) == multiset(y) - multiset{y[0]};
      SortedUnique(x[1..], y[1..]);
    }
  }

  /** Two item lists with the same entries, in whatever order, sort alike. */
  lemma SortOrderIndependent(a: seq<Label>, b: seq<Label>)
    requires multiset(a) == multiset(b)
    ensures SortLabels(a) == SortLabels(b)
  {
    SortLabelsSorted(a);
    SortLabelsSorted(b);
    SortedUnique(SortLabels(a), SortLabels(b));
  }

  /** `"_".join(parts)`, and `",".join(parts)` with `sep := ","`. */
  function Join(sep: string, parts: seq<string>): string
  {
    if parts == [] then ""
    else if |parts| == 1 then parts[0]
    else parts[0] + sep + Join(sep, parts[1..])
  }

  /** `f"{k}_{v}"` for each pair. */
  function KeyParts(l: seq<Label>): (r: seq<string>)
    ensures |r| == |l|
    ensures forall i :: 0 <= i < |l| ==> r[i] == l[i].0 + "_" + l[i].1
  {
    seq(|l|, i requires 0 <= i < |l| => l[i].0 + "_" + l[i].1)
  }

  /** `_get_metric_key(name, labels)`: the name, extended exactly when there
      are labels. */
  function MetricKey(name: string, labels: seq<Label>): (k: string)
    ensures k == name <==> labels == []
    ensures |name| <= |k| && k[..|name|] == name
  {
    if labels == [] then name else name + "_" + Join("_", KeyParts(SortLabels(labels)))
  }

  /** `"_" + k + "_" + v` for each pair in order, concatenated. */
  function Suffixes(l: seq<Label>): string
  {
    if l == [] then "" else "_" + l[0].0 + "_" + l[0].1 + Suffixes(l[1..])
  }

  lemma {:induction false} JoinIsSuffixes(l: seq<Label>)
    requires l != []
    ensures "_" + Join("_", KeyParts(l)) == Suffixes(l)
  {
    if |l| > 1 {
      JoinIsSuffixes(l[1..]);
      assert KeyParts(l)[1..] == KeyParts(l[1..]);
    }
  }

  /** The last pair's `_k_v` closes the concatenation. */
  lemma {:induction false} SuffixesLast(l: seq<Label>)
    requires l != []
    ensures Suffixes(l) == Suffixes(l[..|l| - 1]) + "_" + l[|l| - 1].0 + "_" + l[|l| - 1].1
  {
    if |l| > 1 {
      SuffixesLast(l[1..]);
      assert l[1..][..|l| - 2] == l[..|l| - 1][1..];
      assert l[1..][|l| - 2] == l[|l| - 1];
    } else {
      assert l[..0] == [];
    }
  }

  /** The key is the name followed by `_name_value` for each label in sorted
      order; no labels give the bare name. */
  lemma MetricKeyForm(name: string, labels: seq<Label>)
    ensures MetricKey(name, labels) == name + Suffixes(SortLabels(labels))
  {
    if labels != [] {
      JoinIsSuffixes(SortLabels(labels));
    }
  }

  /** The key depends on the labels' contents, not their insertion order. */
  lemma MetricKeyOrderIndependent(name: string, a: seq<Label>, b: seq<Label>)
    requires multiset(a) == multiset(b)
    ensures MetricKey(name, a) == MetricKey(name, b)
  {
    SortOrderIndependent(a, b);
  }

  /** Keys are not unique: a labelled metric can share its key with an
      unlabelled one whose name spells the labels out. */
  lemma KeysCanCollide()
    ensures MetricKey("a", [("b", "c")]) == MetricKey("a_b_c", [])
  {
    assert SortLabels([("b", "c")]) == [("b", "c")];
  }

  /** Two label sets on the same metric name can share a key as well. */
  lemma SameNameKeysCollide()
    ensures MetricKey("a", [("b", "c_d")]) == MetricKey("a", [("b_c", "d")])
  {
    assert SortLabels([("b", "c_d")]) == [("b", "c_d")];
    assert SortLabels([("b_c", "d")]) == [("b_c", "d")];
  }

  /** `d[k] = v` on a dict: replace the value in place, or add the pair last. */
  function SetLabel(l: seq<Label>, k: string, v: string): (r: seq<Label>)
    ensures (k, v) in r
    ensures forall q :: q in r ==> q == (k, v) || q in l
    ensures forall q :: q in l && q.0 != k ==> q in r
  {
    if l == [] then [(k, v)]
    else if l[0].0 == k then [(k, v)] + l[1..]
    else [l[0]] + SetLabel(l[1..], k, v)
  }

  lemma {:induction false} SetLabelDistinct(l: seq<Label>, k: string, v: string)
    requires DistinctNames(l)
    ensures DistinctNames(SetLabel(l, k, v))
  {
    if l != [] && l[0].0 != k {
      SetLabelDistinct(l[1..], k, v);
      var r := SetLabel(l, k, v);
      forall j | 0 < j < |r| ensures r[0].0 != r[j].0 {
        assert r[j] in SetLabel(l[1..], k, v);
        if r[j] != (k, v) {
          assert r[j] in l[1..];
        }
      }
    }
  }

  /** Two item lists with the same names in the same places, whose values
      differ only under the name `k`. */
  predicate DifferOnlyAt(x: seq<Label>, y: seq<Label>, k: string)
  {
    |x| == |y| && forall i :: 0 <= i < |x| ==> x[i].0 == y[i].0 && (x[i].0 != k ==> x[i].1 == y[i].1)
  }

  lemma {:induction false} SetLabelDifferOnlyAt(l: seq<Label>, k: string, v: string, w: string)
    ensures DifferOnlyAt(SetLabel(l, k, v), SetLabel(l, k, w), k)
  {
    if l != [] && l[0].0 != k {
      SetLabelDifferOnlyAt(l[1..], k, v, w);
    }
  }

  /** With distinct names, the sort compares names only, so lists that differ
      only in the value under one name are permuted the same way. */
  lemma ConsDifferOnlyAt(p: Label, s: seq<Label>, q: Label, t: seq<Label>, k: string)
    requires p.0 == q.0 && (p.0 != k ==> p.1 == q.1) && DifferOnlyAt(s, t, k)
    ensures DifferOnlyAt([p] + s, [q] + t, k)
  {
    forall i | 0 < i <= |s|
      ensures ([p] + s)[i].0 == ([q] + t)[i].0
      ensures ([p] + s)[i].0 != k ==> ([p] + s)[i].1 == ([q] + t)[i].1
    {
      assert ([p] + s)[i] == s[i - 1] && ([q] + t)[i] == t[i - 1];
    }
  }

  /** Comparing pairs with different names looks at the names only. */
  lemma SameComparison(a: Label, b: Label, c: Label, d: Label)
    requires a.0 == c.0 && b.0 == d.0 && a.0 != b.0
    ensures LabelLess(a, b) == LabelLess(c, d)
  {
  }

  lemma {:induction false} InsertDifferOnlyAt(p: Label, s: seq<Label>, q: Label, t: seq<Label>, k: string)
    requires p.0 == q.0 && (p.0 != k ==> p.1 == q.1) && DifferOnlyAt(s, t, k)
    requires forall i :: 0 <= i < |s| ==> s[i].0 != p.0
    ensures DifferOnlyAt(Insert(p, s), Insert(q, t), k)
  {
    if s == [] {
      ConsDifferOnlyAt(p, s, q, t, k);
    } else {
      SameComparison(s[0], p, t[0], q);
      if LabelLess(s[0], p) {
        InsertDifferOnlyAt(p, s[1..], q, t[1..], k);
        ConsDifferOnlyAt(s[0], Insert(p, s[1..]), t[0], Insert(q, t[1..]), k);
      } else {
        ConsDifferOnlyAt(p, s, q, t, k);
      }
    }
  }

  lemma {:induction false} SortDifferOnlyAt(x: seq<Label>, y: seq<Label>, k: string)
    requires DifferOnlyAt(x, y, k) && DistinctNames(x)
    ensures DifferOnlyAt(SortLabels(x), SortLabels(y), k)
  {
    if x != [] {
      SortDifferOnlyAt(x[1..], y[1..], k);
      var s := SortLabels(x[1..]);
      forall i | 0 <= i < |s| ensures s[i].0 != x[0].0 {
        assert s[i] in multiset(x[1..]);
        var j :| 0 <= j < |x[1..]| && x[1..][j] == s[i];
        assert x[j + 1] == s[i];
      }
      InsertDifferOnlyAt(x[0], s, y[0], SortLabels(y[1..]), k);
    }
  }

  lemma {:induction false} InsertDistinct(p: Label, s: seq<Label>)
    requires DistinctNames(s) && forall i :: 0 <= i < |s| ==> s[i].0 != p.0
    ensures DistinctNames(Insert(p, s))
  {
    if s != [] && LabelLess(s[0], p) {
      InsertDistinct(p, s[1..]);
      var t := Insert(p, s[1..]);
      forall j | 0 <= j < |t| ensures s[0].0 != t[j].0 {
        assert t[j] in multiset(s[1..]) + multiset{p};
        if t[j] != p {
          assert t[j] in s[1..];
        }
      }
    }
  }

  lemma {:induction false} SortDistinct(l: seq<Label>)
    requires DistinctNames(l)
    ensures DistinctNames(SortLabels(l))
  {
    if l != [] {
      SortDistinct(l[1..]);
      var s := SortLabels(l[1..]);
      forall i | 0 <= i < |s| ensures s[i].0 != l[0].0 {
        assert s[i] in multiset(l[1..]);
        var j :| 0 <= j < |l[1..]| && l[1..][j] == s[i];
        assert l[j + 1] == s[i];
      }
      InsertDistinct(l[0], s);
    }
  }

  lemma CancelMiddle(a: string, u: string, w: string, c: string)
    requires u != w
    ensures a + u + c != a + w + c
  {
    if |u| == |w| {
      assert (a + u + c)[|a|..|a| + |u|] == u;
      assert (a + w + c)[|a|..|a| + |w|] == w;
    }
  }

  lemma {:induction false} SuffixesDiffer(x: seq<Label>, y: seq<Label>, k: string)
    requires DifferOnlyAt(x, y, k) && DistinctNames(x) && x != y
    ensures Suffixes(x) != Suffixes(y)
  {
    var a := "_" + x[0].0 + "_";
    if x[0] == y[0] {
      SuffixesDiffer(x[1..], y[1..], k);
      var piece := "_" + x[0].0 + "_" + x[0].1;
      CancelMiddle(piece, Suffixes(x[1..]), Suffixes(y[1..]), "");
      assert Suffixes(x) == piece + Suffixes(x[1..]) + "";
      assert Suffixes(y) == piece + Suffixes(y[1..]) + "";
    } else {
      assert x[1..] == y[1..];
      var rest := Suffixes(x[1..]);
      assert Suffixes(x) == a + x[0].1 + rest;
      assert Suffixes(y) == a + y[0].1 + rest;
      CancelMiddle(a, x[0].1, y[0].1, rest);
    }
  }

  /** The histogram's bucket keys are pairwise distinct: setting the `le`
      label to two different values in a copy of the same labels gives two
      different keys, whatever the other labels are. */
  lemma SetLabelKeysDiffer(name: string, l: seq<Label>, k: string, v: string, w: string)
    requires DistinctNames(l) && v != w
    ensures MetricKey(name, SetLabel(l, k, v)) != MetricKey(name, SetLabel(l, k, w))
  {
    var x := SetLabel(l, k, v);
    var y := SetLabel(l, k, w);
    SortedSetLabelsDiffer(l, k, v, w);
    SuffixesDiffer(SortLabels(x), SortLabels(y), k);
    MetricKeyForm(name, x);
    MetricKeyForm(name, y);
    CancelMiddle(name, Suffixes(SortLabels(x)), Suffixes(SortLabels(y)), "");
    assert MetricKey(name, x) == name + Suffixes(SortLabels(x)) + "";
    assert MetricKey(name, y) == name + Suffixes(SortLabels(y)) + "";
  }

  lemma SortedSetLabelsDiffer(l: seq<Label>, k: string, v: string, w: string)
    requires DistinctNames(l) && v != w
    ensures var sx, sy := SortLabels(SetLabel(l, k, v)), SortLabels(SetLabel(l, k, w));
            DifferOnlyAt(sx, sy, k) && DistinctNames(sx) && sx != sy
  {
    var x := SetLabel(l, k, v);
    var y := SetLabel(l, k, w);
    SetLabelDistinct(l, k, v);
    SetLabelDifferOnlyAt(l, k, v, w);
    SortDifferOnlyAt(x, y, k);
    SortDistinct(x);
    var sx, sy := SortLabels(x), SortLabels(y);
    assert (k, v) in multiset(sx);
    assert (k, w) in multiset(sy);
  }

  /** The Prometheus label-value escape `value.replace('\\', '\\\\')` followed
      by `.replace('"', '\\"')`; replacing a one-character pattern rewrites
      each occurrence of that character. */
  function ReplaceChar(s: string, c: char, rep: string): (r: string)
    ensures |rep| >= 1 ==> |r| >= |s|
  {
    if s == [] then [] else (if s[0] == c then rep else [s[0]]) + ReplaceChar(s[1..], c, rep)
  }

  function EscapeLabelValue(v: string): (r: string)
    ensures |r| >= |v|
  {
    ReplaceChar(ReplaceChar(v, '\\', "\\\\"), '"', "\\\"")
  }

  lemma {:induction false} ReplaceCharConcat(a: string, b: string, c: char, rep: string)
    ensures ReplaceChar(a + b, c, rep) == ReplaceChar(a, c, rep) + ReplaceChar(b, c, rep)
  {
    if a == [] {
      assert a + b == b;
    } else {
      assert (a + b)[1..] == a[1..] + b;
      ReplaceCharConcat(a[1..], b, c, rep);
    }
  }

  /** The two passes escape the first character and then the rest. */
  lemma EscapeLabelValueCons(v: string)
    requires v != []
    ensures EscapeLabelValue(v) ==
              (if v[0] == '\\' then "\\\\" else if v[0] == '"' then "\\\"" else [v[0]])
              + EscapeLabelValue(v[1..])
  {
    var once := if v[0] == '\\' then "\\\\" else [v[0]];
    ReplaceCharConcat(once, ReplaceChar(v[1..], '\\', "\\\\"), '"', "\\\"");
  }

  /** Each backslash and each quote gains exactly one backslash in front;
      nothing else is added. */
  lemma {:induction false} EscapeLabelValueLength(v: string)
    ensures |EscapeLabelValue(v)| == |v| + Count(v, '\\') + Count(v, '"')
  {
    if v != [] {
      EscapeLabelValueCons(v);
      EscapeLabelValueLength(v[1..]);
    }
  }

  /** Reading an escaped label value back: `\\` and `\"` stand for one
      character; a lone backslash or an unescaped quote is malformed. */
  function UnescapeLabelValue(s: string): Option<string>
  {
    if s == [] then Some([])
    else if s[0] == '\\' then
      if |s| >= 2 && (s[1] == '\\' || s[1] == '"') then
        match UnescapeLabelValue(s[2..])
        case Some(rest) => Some([s[1]] + rest)
        case None => None
      else None
    else if s[0] == '"' then None
    else
      match UnescapeLabelValue(s[1..])
      case Some(rest) => Some([s[0]] + rest)
      case None => None
  }

  /** Escaping loses nothing and leaves no unescaped quote: reading back
      succeeds and gives the original value. */
  lemma {:induction false} LabelEscapeRoundTrip(v: string)
    ensures UnescapeLabelValue(EscapeLabelValue(v)) == Some(v)
  {
    if v != [] {
      EscapeLabelValueCons(v);
      LabelEscapeRoundTrip(v[1..]);
      var e := EscapeLabelValue(v);
      var tail := EscapeLabelValue(v[1..]);
      if v[0] == '\\' || v[0] == '"' {
        assert e[2..] == tail;
      } else {
        assert e[1..] == tail;
      }
      assert v == [v[0]] + v[1..];
    }
  }

  /** `f'{key}="{escaped_value}"'`. */
  function LabelEntry(p: Label): string
  {
    p.0 + "=\"" + EscapeLabelValue(p.1) + "\""
  }

  /** `_format_labels(labels)`: the entries in sorted order, comma separated;
      no labels give the empty string. */
  function FormatLabels(labels: seq<Label>): (r: string)
    ensures r == [] <==> labels == []
    ensures labels != [] ==>
              var first := LabelEntry(SortLabels(labels)[0]); |first| <= |r| && r[..|first|] == first
  {
    if labels == [] then ""
    else
      var entries := Entries(SortLabels(labels));
      assert entries[0] == LabelEntry(SortLabels(labels)[0]);
      Join(",", entries)
  }

  function Entries(l: seq<Label>): (r: seq<string>)
    ensures |r| == |l|
    ensures forall i :: 0 <= i < |l| ==> r[i] == LabelEntry(l[i])
  {
    seq(|l|, i requires 0 <= i < |l| => LabelEntry(l[i]))
  }

  lemma FormatLabelsOrderIndependent(a: seq<Label>, b: seq<Label>)
    requires multiset(a) == multiset(b)
    ensures FormatLabels(a) == FormatLabels(b)
  {
    SortOrderIndependent(a, b);
  }

  /** Values without a backslash or a quote are written as they are. */
  lemma {:induction false} EscapePlain(v: string)
    requires forall i :: 0 <= i < |v| ==> v[i] != '\\' && v[i] != '"'
    ensures EscapeLabelValue(v) == v
  {
    if v != [] {
      EscapeLabelValueCons(v);
      EscapePlain(v[1..]);
      assert v == [v[0]] + v[1..];
    }
  }

  lemma SortExample()
    ensures SortLabels([("method", "GET"), ("endpoint", "/x")]) == [("endpoint", "/x"), ("method", "GET")]
  {
    var m, e := ("method", "GET"), ("endpoint", "/x");
    assert StrLess("endpoint", "method");
    assert SortLabels([e]) == [e];
    assert Insert(m, [e]) == [e] + Insert(m, []);
  }

  /** Entries come out ordered by name, whatever order they were added in. */
  lemma FormatLabelsExample()
    ensures FormatLabels([("method", "GET"), ("endpoint", "/x")]) == "endpoint=\"/x\"" + "," + "method=\"GET\""
  {
    var m, e := ("method", "GET"), ("endpoint", "/x");
    SortExample();
    EntryExamples();
    assert FormatLabels([m, e]) == Join(",", Entries([e, m]));
    assert Entries([e, m]) == [LabelEntry(e), LabelEntry(m)];
    JoinPairExample(LabelEntry(e), LabelEntry(m));
  }

  lemma JoinPairExample(a: string, b: string)
    ensures Join(",", [a, b]) == a + "," + b
  {
    assert [a, b][1..] == [b];
  }

  lemma EntryExamples()
    ensures LabelEntry(("endpoint", "/x")) == "endpoint=\"/x\""
    ensures LabelEntry(("method", "GET")) == "method=\"GET\""
  {
    EscapePlain("/x");
    EscapePlain("GET");
  }

  /** A quote in a value comes out escaped. */
  lemma EscapeExample()
    ensures EscapeLabelValue("a\"b") == "a\\\"b"
  {
    EscapeLabelValueCons("a\"b");
    EscapeLabelValueCons("\"b");
    EscapeLabelValueCons("b");
    assert "a\"b"[1..] == "\"b";
    assert "\"b"[1..] == "b";
    assert "b"[1..] == "";
  }
}
