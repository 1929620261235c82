/**
 * The order-by formatter (`convertGqlOrderBy`): each `{key, order}` record
 * becomes `"<key>: <order>"` and the fragments are joined with `", "`.
 * Keys and orders are copied verbatim; nothing is escaped or validated.
 */
module OrderBy {

  /** One sort directive: a field name and a direction token. */
  datatype OrderDirective = OrderDirective(key: string, order: string)

  const Separator: string := ", "

  /** The text one directive contributes: `key: order`. */
  function Fragment(d: OrderDirective): (r: string)
    ensures |r| == |d.key| + 2 + |d.order|
    ensures r[..|d.key|] == d.key && r[|d.key| + 2..] == d.order
    ensures r[|d.key|..|d.key| + 2] == ": "
  {
    d.key + ": " + d.order
  }

  /** `Array.prototype.map` of `Fragment` over the directives. */
  function Fragments(ds: seq<OrderDirective>): (r: seq<string>)
    ensures |r| == |ds|
    ensures forall i :: 0 <= i < |ds| ==> r[i] == Fragment(ds[i])
  {
    seq(|ds|, i requires 0 <= i < |ds| => Fragment(ds[i]))
  }

  /** Total length of the strings in `parts`. */
  function TotalLength(parts: seq<string>): nat
    decreases |parts|
  {
    if |parts| == 0 then 0 else |parts[0]| + TotalLength(parts[1..])
  }

  /**
   * `Array.prototype.join`: the parts with `sep` between neighbours; the
   * empty array joins to the empty string.
   */
  function Join(parts: seq<string>, sep: string): (r: string)
    ensures |parts| == 0 ==> r == ""
    ensures |parts| == 1 ==> r == parts[0]
    ensures 1 <= |parts| ==> |r| == TotalLength(parts) + |sep| * (|parts| - 1)
    ensures 1 <= |parts| ==> r[..|parts[0]|] == parts[0]
    decreases |parts|
  {
    if |parts| == 0 then ""
    else if |parts| == 1 then parts[0]
    else parts[0] + sep + Join(parts[1..], sep)
  }

  /** The formatter: every directive becomes its `Fragment`, and the fragments are joined with `Separator`. */
  function Convert(ds: seq<OrderDirective>): (r: string)
    ensures |ds| == 0 ==> r == ""
    ensures |ds| == 1 ==> r == ds[0].key + ": " + ds[0].order
  {
    Join(Fragments(ds), Separator)
  }

  /** Joining a concatenation of two non-empty lists puts one separator between their joins. */
  lemma {:induction false} JoinAppend(a: seq<string>, b: seq<string>, sep: string)
    requires |a| > 0 && |b| > 0
    ensures Join(a + b, sep) == Join(a, sep) + sep + Join(b, sep)
    decreases |a|
  {
    if |a| == 1 {
      assert (a + b)[1..] == b;
    } else {
      assert (a + b)[1..] == a[1..] + b;
      JoinAppend(a[1..], b, sep);
    }
  }

  /** The formatter distributes over concatenation of non-empty inputs, so input order is kept. */
  lemma ConvertAppend(a: seq<OrderDirective>, b: seq<OrderDirective>)
    requires |a| > 0 && |b| > 0
    ensures Convert(a + b) == Convert(a) + Separator + Convert(b)
  {
    assert Fragments(a + b) == Fragments(a) + Fragments(b);
    JoinAppend(Fragments(a), Fragments(b), Separator);
  }

  /** Sum over the directives of `|key| + 2 + |order|`. */
  function FragmentsLength(ds: seq<OrderDirective>): nat
    decreases |ds|
  {
    if |ds| == 0 then 0 else |ds[0].key| + 2 + |ds[0].order| + FragmentsLength(ds[1..])
  }

  lemma {:induction false} TotalLengthFragments(ds: seq<OrderDirective>)
    ensures TotalLength(Fragments(ds)) == FragmentsLength(ds)
    decreases |ds|
  {
    if |ds| > 0 {
      assert Fragments(ds)[1..] == Fragments(ds[1..]);
      TotalLengthFragments(ds[1..]);
    }
  }

  /** For one or more directives the output is every fragment plus two characters per separator. */
  lemma ConvertLength(ds: seq<OrderDirective>)
    requires |ds| >= 1
    ensures |Convert(ds)| == FragmentsLength(ds) + 2 * (|ds| - 1)
  {
    TotalLengthFragments(ds);
  }

  /** Where the fragment of directive `i` starts in the output. */
  function Offset(ds: seq<OrderDirective>, i: nat): nat
    requires i <= |ds|
  {
    FragmentsLength(ds[..i]) + 2 * i
  }

  /** The output of a non-empty input starts with the first fragment, followed by the rest's output. */
  lemma ConvertCons(ds: seq<OrderDirective>)
    requires |ds| >= 2
    ensures Convert(ds) == Fragment(ds[0]) + Separator + Convert(ds[1..])
  {
    assert ds == [ds[0]] + ds[1..];
    ConvertAppend([ds[0]], ds[1..]);
  }

  /** The output from directive `i` onwards is the suffix of the whole output starting at `Offset(ds, i)`. */
  lemma SuffixAt(ds: seq<OrderDirective>, i: nat)
    requires i < |ds|
    ensures Offset(ds, i) <= |Convert(ds)|
    ensures Convert(ds)[Offset(ds, i)..] == Convert(ds[i..])
  {
    if i == 0 {
      assert ds[i..] == ds;
      assert ds[..0] == [];
    } else {
      assert ds == ds[..i] + ds[i..];
      ConvertAppend(ds[..i], ds[i..]);
      ConvertLength(ds[..i]);
    }
  }

  /**
   * Every directive's fragment appears verbatim at its offset, followed by a
   * separator unless it is the last; offsets grow with the index.
   */
  lemma FragmentAt(ds: seq<OrderDirective>, i: nat)
    requires i < |ds|
    ensures Offset(ds, i) + |Fragment(ds[i])| <= |Convert(ds)|
    ensures Convert(ds)[Offset(ds, i)..Offset(ds, i) + |Fragment(ds[i])|] == Fragment(ds[i])
    ensures i + 1 < |ds| ==> Offset(ds, i + 1) == Offset(ds, i) + |Fragment(ds[i])| + 2
    ensures i + 1 < |ds| ==>
      && Offset(ds, i) + |Fragment(ds[i])| + 2 <= |Convert(ds)|
      && Convert(ds)[Offset(ds, i) + |Fragment(ds[i])|..Offset(ds, i) + |Fragment(ds[i])| + 2] == Separator
  {
    var r := Convert(ds);
    var o := Offset(ds, i);
    var f := Fragment(ds[i]);
    SuffixAt(ds, i);
    var tail := Convert(ds[i..]);
    assert r[o..] == tail;
    assert Fragments(ds[i..])[0] == f;
    assert tail[..|f|] == f;
    assert r[o..o + |f|] == tail[..|f|];
    if i + 1 < |ds| {
      ConvertCons(ds[i..]);
      assert ds[i..][1..] == ds[i + 1..];
      assert tail[|f|..|f| + 2] == Separator;
      assert r[o + |f|..o + |f| + 2] == tail[|f|..|f| + 2];
      FragmentsLengthSnoc(ds, i);
    }
  }

  lemma {:induction false} FragmentsLengthSnoc(ds: seq<OrderDirective>, i: nat)
    requires i < |ds|
    ensures FragmentsLength(ds[..i + 1]) == FragmentsLength(ds[..i]) + |Fragment(ds[i])|
    decreases i
  {
    if i > 0 {
      assert ds[..i + 1][1..] == ds[1..][..i];
      assert ds[..i][1..] == ds[1..][..i - 1];
      FragmentsLengthSnoc(ds[1..], i - 1);
    }
  }

  /** The join loop of `Array.prototype.join`, as a reference for `Convert`. */
  method ConvertIterative(ds: seq<OrderDirective>) returns (r: string)
    ensures r == Convert(ds)
  {
    r := "";
    var i := 0;
    while i < |ds|
      invariant 0 <= i <= |ds|
      invariant r == Convert(ds[..i])
    {
      if i > 0 {
        assert ds[..i + 1] == ds[..i] + [ds[i]];
        ConvertAppend(ds[..i], [ds[i]]);
        r := r + Separator;
      }
      r := r + Fragment(ds[i]);
      i := i + 1;
    }
    assert ds[..i] == ds;
  }

  /** Number of positions in `s` where the separator `", "` starts. */
  function CountSeparators(s: string): nat
    decreases |s|
  {
    if |s| < 2 then 0
    else (if s[0] == ',' && s[1] == ' ' then 1 else 0) + CountSeparators(s[1..])
  }

  /** `s` contains the separator `", "` somewhere. */
  predicate ContainsSeparator(s: string) {
    exists i :: 0 <= i < |s| - 1 && s[i] == ',' && s[i + 1] == ' '
  }

  /** The count is zero exactly when the separator does not occur. */
  lemma {:induction false} NoSeparatorCount(s: string)
    ensures CountSeparators(s) == 0 <==> !ContainsSeparator(s)
    decreases |s|
  {
    if |s| >= 2 {
      NoSeparatorCount(s[1..]);
      if ContainsSeparator(s[1..]) {
        var i :| 0 <= i < |s[1..]| - 1 && s[1..][i] == ',' && s[1..][i + 1] == ' ';
        assert s[i + 1] == ',' && s[i + 2] == ' ';
      }
      if ContainsSeparator(s) {
        var i :| 0 <= i < |s| - 1 && s[i] == ',' && s[i + 1] == ' ';
        if i > 0 {
          assert s[1..][i - 1] == ',' && s[1..][i] == ' ';
        }
      }
    } else {
      assert !ContainsSeparator(s);
    }
  }

  /** Separators in a concatenation: those of each side, plus one if a `','` meets a `' '` at the seam. */
  lemma {:induction false} CountSeparatorsAppend(x: string, y: string)
    ensures CountSeparators(x + y) ==
      CountSeparators(x) + CountSeparators(y)
      + (if |x| > 0 && |y| > 0 && x[|x| - 1] == ',' && y[0] == ' ' then 1 else 0)
    decreases |x|
  {
    if |x| == 0 {
      assert x + y == y;
    } else if |x| == 1 {
      assert (x + y)[1..] == y;
    } else {
      assert (x + y)[1..] == x[1..] + y;
      CountSeparatorsAppend(x[1..], y);
    }
  }

  /** A fragment's separators are exactly those inside its key and its order. */
  lemma FragmentSeparators(d: OrderDirective)
    ensures CountSeparators(Fragment(d)) == CountSeparators(d.key) + CountSeparators(d.order)
  {
    assert Fragment(d) == d.key + (": " + d.order);
    CountSeparatorsAppend(d.key, ": " + d.order);
    CountSeparatorsAppend(": ", d.order);
  }

  /** Separators occurring inside the keys and orders of `ds`. */
  function InnerSeparators(ds: seq<OrderDirective>): nat
    decreases |ds|
  {
    if |ds| == 0 then 0
    else CountSeparators(ds[0].key) + CountSeparators(ds[0].order) + InnerSeparators(ds[1..])
  }

  /**
   * The output holds one separator between each pair of neighbouring
   * directives, plus every separator that occurs inside a key or an order.
   */
  lemma {:induction false} ConvertSeparators(ds: seq<OrderDirective>)
    requires |ds| >= 1
    ensures CountSeparators(Convert(ds)) == |ds| - 1 + InnerSeparators(ds)
    decreases |ds|
  {
    FragmentSeparators(ds[0]);
    if |ds| >= 2 {
      var f := Fragment(ds[0]);
      ConvertCons(ds);
      assert Convert(ds) == f + (Separator + Convert(ds[1..]));
      CountSeparatorsAppend(f, Separator + Convert(ds[1..]));
      CountSeparatorsAppend(Separator, Convert(ds[1..]));
      ConvertSeparators(ds[1..]);
    }
  }

  /** No key or order contains the separator `", "`. */
  predicate SeparatorFree(ds: seq<OrderDirective>) {
    forall i :: 0 <= i < |ds| ==> !ContainsSeparator(ds[i].key) && !ContainsSeparator(ds[i].order)
  }

  lemma {:induction false} InnerSeparatorsZero(ds: seq<OrderDirective>)
    ensures InnerSeparators(ds) == 0 <==> SeparatorFree(ds)
    decreases |ds|
  {
    if |ds| > 0 {
      NoSeparatorCount(ds[0].key);
      NoSeparatorCount(ds[0].order);
      InnerSeparatorsZero(ds[1..]);
      assert forall i :: 1 <= i < |ds| ==> ds[i] == ds[1..][i - 1];
    }
  }

  /**
   * The output holds exactly one separator fewer than there are directives
   * (none for empty input) if and only if no key or order itself contains
   * `", "`: keys and orders are not escaped.
   */
  lemma SeparatorCount(ds: seq<OrderDirective>)
    ensures CountSeparators(Convert(ds)) == (if |ds| == 0 then 0 else |ds| - 1) <==> SeparatorFree(ds)
  {
    InnerSeparatorsZero(ds);
    if |ds| >= 1 {
      ConvertSeparators(ds);
    }
  }
}
