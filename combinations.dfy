/**
 * `itertools.product` as `exploration.gen_all_combinations` uses it: every
 * choice of one value per flag, the first flag's value varying slowest.
 */
module Combinations {
  /** `[x] + t` for every `t` of `tails`, in order. */
  function Prefixed(x: string, tails: seq<seq<string>>): (r: seq<seq<string>>)
    ensures |r| == |tails|
    ensures forall i :: 0 <= i < |tails| ==> r[i] == [x] + tails[i]
  {
    if tails == [] then [] else [[x] + tails[0]] + Prefixed(x, tails[1..])
  }

  /** Every choice of `xs`, each followed by every tail, the first choice varying slowest. */
  function Extend(xs: seq<string>, tails: seq<seq<string>>): seq<seq<string>> {
    if xs == [] then [] else Prefixed(xs[0], tails) + Extend(xs[1..], tails)
  }

  /** `itertools.product(*doms)`. */
  function Product(doms: seq<seq<string>>): seq<seq<string>> {
    if doms == [] then [[]] else Extend(doms[0], Product(doms[1..]))
  }

  /** The product of the domain sizes. */
  function Size(doms: seq<seq<string>>): nat {
    if doms == [] then 1 else |doms[0]| * Size(doms[1..])
  }

  lemma {:induction false} ExtendLength(xs: seq<string>, tails: seq<seq<string>>)
    ensures |Extend(xs, tails)| == |xs| * |tails|
  {
    if xs != [] {
      ExtendLength(xs[1..], tails);
      assert |xs| * |tails| == |tails| + (|xs| - 1) * |tails|;
    }
  }

  /** `i * m`, counted out one block of `m` at a time. */
  function Offset(i: nat, m: nat): nat {
    if i == 0 then 0 else m + Offset(i - 1, m)
  }

  lemma {:induction false} OffsetIsProduct(i: nat, m: nat)
    ensures Offset(i, m) == i * m
  {
    if i > 0 {
      OffsetIsProduct(i - 1, m);
      MulPred(i, m);
    }
  }

  lemma {:induction false} ExtendAt(xs: seq<string>, tails: seq<seq<string>>, i: nat, j: nat)
    requires i < |xs| && j < |tails|
    ensures Offset(i, |tails|) + j < |Extend(xs, tails)|
    ensures Extend(xs, tails)[Offset(i, |tails|) + j] == [xs[i]] + tails[j]
  {
    if i == 0 {
      ExtendAtHead(xs, tails, j);
    } else {
      ExtendAt(xs[1..], tails, i - 1, j);
      assert xs[1..][i - 1] == xs[i];
      ExtendAtNext(xs, tails, i, j);
    }
  }

  lemma ExtendAtHead(xs: seq<string>, tails: seq<seq<string>>, j: nat)
    requires 0 < |xs| && j < |tails|
    ensures Offset(0, |tails|) + j < |Extend(xs, tails)|
    ensures Extend(xs, tails)[Offset(0, |tails|) + j] == [xs[0]] + tails[j]
  {
    var pre := Prefixed(xs[0], tails);
    assert Extend(xs, tails) == pre + Extend(xs[1..], tails);
    assert pre[j] == [xs[0]] + tails[j];
  }

  lemma ExtendAtNext(xs: seq<string>, tails: seq<seq<string>>, i: nat, j: nat)
    requires 0 < i < |xs| && j < |tails|
    requires Offset(i - 1, |tails|) + j < |Extend(xs[1..], tails)|
    requires Extend(xs[1..], tails)[Offset(i - 1, |tails|) + j] == [xs[i]] + tails[j]
    ensures Offset(i, |tails|) + j < |Extend(xs, tails)|
    ensures Extend(xs, tails)[Offset(i, |tails|) + j] == [xs[i]] + tails[j]
  {
    var pre, rest := Prefixed(xs[0], tails), Extend(xs[1..], tails);
    assert Extend(xs, tails) == pre + rest;
    var p := Offset(i - 1, |tails|) + j;
    assert Offset(i, |tails|) + j == |pre| + p;
    AppendRight(pre, rest, p);
  }

  /** The tail `j` after choice `i` sits at position `i * |tails| + j`. */
  lemma ExtendIndex(xs: seq<string>, tails: seq<seq<string>>, i: nat, j: nat)
    requires i < |xs| && j < |tails|
    ensures i * |tails| + j < |Extend(xs, tails)|
    ensures Extend(xs, tails)[i * |tails| + j] == [xs[i]] + tails[j]
  {
    ExtendAt(xs, tails, i, j);
    OffsetIsProduct(i, |tails|);
  }

  lemma MulPred(i: nat, m: nat)
    requires i > 0
    ensures i * m == (i - 1) * m + m
  {
  }

  lemma AppendRight(a: seq<seq<string>>, b: seq<seq<string>>, k: nat)
    requires k < |b|
    ensures (a + b)[|a| + k] == b[k]
  {
  }

  lemma {:induction false} ExtendMember(xs: seq<string>, tails: seq<seq<string>>, c: seq<string>)
    ensures c in Extend(xs, tails) <==> |c| >= 1 && c[0] in xs && c[1..] in tails
  {
    if xs != [] {
      ExtendMember(xs[1..], tails, c);
      var p := Prefixed(xs[0], tails);
      if c in p {
        var i :| 0 <= i < |p| && p[i] == c;
        assert c[1..] == tails[i];
      }
      if |c| >= 1 && c[0] == xs[0] && c[1..] in tails {
        var i :| 0 <= i < |tails| && tails[i] == c[1..];
        assert p[i] == c;
      }
    }
  }

  /** `gen_all_combinations` yields as many candidates as the product of the domain sizes. */
  lemma {:induction false} ProductLength(doms: seq<seq<string>>)
    ensures |Product(doms)| == Size(doms)
  {
    if doms != [] {
      ProductLength(doms[1..]);
      ExtendLength(doms[0], Product(doms[1..]));
    }
  }

  /** A candidate is a choice of one value per flag, and every such choice is a candidate. */
  lemma {:induction false} ProductMember(doms: seq<seq<string>>, c: seq<string>)
    ensures c in Product(doms) <==> |c| == |doms| && forall i :: 0 <= i < |c| ==> c[i] in doms[i]
  {
    if doms == [] {
      assert c in [[]] <==> c == [];
    } else {
      ExtendMember(doms[0], Product(doms[1..]), c);
      if |c| >= 1 {
        ProductMember(doms[1..], c[1..]);
        if |c| == |doms| && forall i :: 0 <= i < |c| ==> c[i] in doms[i] {
          assert forall i :: 0 <= i < |c[1..]| ==> c[1..][i] == c[i + 1] && doms[1..][i] == doms[i + 1];
        }
        if c[0] in doms[0] && c[1..] in Product(doms[1..]) {
          forall i | 0 <= i < |c| ensures c[i] in doms[i] {
            if i > 0 {
              assert c[i] == c[1..][i - 1] && doms[i] == doms[1..][i - 1];
            }
          }
        }
      }
    }
  }

  /**
   * The candidates come in lexicographic order of the flags' values: the
   * first flag's value varies slowest.
   */
  lemma ProductIndex(doms: seq<seq<string>>, i: nat, j: nat)
    requires doms != [] && i < |doms[0]| && j < Size(doms[1..])
    ensures |Product(doms[1..])| == Size(doms[1..])
    ensures i * Size(doms[1..]) + j < |Product(doms)|
    ensures Product(doms)[i * Size(doms[1..]) + j] == [doms[0][i]] + Product(doms[1..])[j]
  {
    ProductLength(doms[1..]);
    ExtendIndex(doms[0], Product(doms[1..]), i, j);
  }
}
