/** The skill-name expression `^[a-z0-9]+(-[a-z0-9]+)*$`, as a regular language. */
module Names {
  import opened Text

  datatype Expr =
    | Class(cs: set<char>)
    | Cat(left: Expr, right: Expr)
    | Star(body: Expr)

  /** The word `w` belongs to the language of `e`. */
  predicate In(e: Expr, w: string)
    decreases e, |w|
  {
    match e
    case Class(cs) => |w| == 1 && w[0] in cs
    case Cat(l, r) => exists k :: 0 <= k <= |w| && In(l, w[..k]) && In(r, w[k..])
    case Star(b) => w == "" || exists k :: 0 < k <= |w| && In(b, w[..k]) && In(e, w[k..])
  }

  const ALNUM: set<char> := set c: char | 'a' <= c <= 'z' || '0' <= c <= '9'

  function Plus(e: Expr): Expr {
    Cat(e, Star(e))
  }

  const GROUPS: Expr := Star(Cat(Class({'-'}), Plus(Class(ALNUM))))

  const NAME: Expr := Cat(Plus(Class(ALNUM)), GROUPS)

  predicate AllIn(cs: set<char>, w: string) {
    forall i :: 0 <= i < |w| ==> w[i] in cs
  }

  lemma {:induction false} InStarClass(cs: set<char>, w: string)
    ensures In(Star(Class(cs)), w) <==> AllIn(cs, w)
    decreases |w|
  {
    if w != "" {
      InStarClass(cs, w[1..]);
      forall k | 0 < k <= |w| && In(Class(cs), w[..k])
        ensures k == 1
      {
      }
      if AllIn(cs, w) {
        assert In(Class(cs), w[..1]);
      }
      if In(Star(Class(cs)), w) {
        assert forall i :: 1 <= i < |w| ==> w[i] == w[1..][i - 1];
      }
    }
  }

  lemma InPlusClass(cs: set<char>, w: string)
    ensures In(Plus(Class(cs)), w) <==> w != "" && AllIn(cs, w)
  {
    if In(Plus(Class(cs)), w) {
      var k :| 0 <= k <= |w| && In(Class(cs), w[..k]) && In(Star(Class(cs)), w[k..]);
      InStarClass(cs, w[k..]);
      assert k == 1 && forall i :: 1 <= i < |w| ==> w[i] == w[1..][i - 1];
    }
    if w != "" && AllIn(cs, w) {
      InStarClass(cs, w[1..]);
      assert In(Class(cs), w[..1]);
    }
  }

  /** Letters, digits and hyphens, not ending in a hyphen, without doubled hyphens. */
  predicate Hyphenated(w: string) {
    && (forall i :: 0 <= i < |w| ==> 'a' <= w[i] <= 'z' || '0' <= w[i] <= '9' || w[i] == '-')
    && (w != "" ==> w[|w| - 1] != '-')
    && (forall i :: 0 <= i < |w| - 1 ==> !(w[i] == '-' && w[i + 1] == '-'))
  }

  /** `w` is alphanumeric text up to its first hyphen, and `k` is where that is. */
  lemma HeadAndTail(w: string, k: nat)
    requires k <= |w| && AllIn(ALNUM, w[..k]) && (k < |w| ==> w[k] == '-')
    ensures Hyphenated(w) <==> Hyphenated(w[k..])
  {
    assert forall i :: 0 <= i < k ==> w[i] == w[..k][i];
    assert forall i :: k <= i < |w| ==> w[i] == w[k..][i - k];
    if Hyphenated(w[k..]) {
      forall i | 0 <= i < |w| - 1
        ensures !(w[i] == '-' && w[i + 1] == '-')
      {
        if i >= k {
          assert w[k..][i - k] == w[i] && w[k..][i - k + 1] == w[i + 1];
        }
      }
    }
  }

  lemma {:induction false} InGroups(w: string)
    ensures In(GROUPS, w) <==> w == "" || (w[0] == '-' && Hyphenated(w))
    decreases |w|
  {
    var group := Cat(Class({'-'}), Plus(Class(ALNUM)));
    if w != "" {
      if In(GROUPS, w) {
        var k :| 0 < k <= |w| && In(group, w[..k]) && In(GROUPS, w[k..]);
        InGroup(w[..k]);
        InGroups(w[k..]);
        HyphenThenGroup(w, k);
      }
      if w[0] == '-' && Hyphenated(w) {
        var k := Find(w, '-', 1);
        InGroup(w[..k]);
        HyphenThenGroup(w, k);
        InGroups(w[k..]);
        assert In(group, w[..k]) && In(GROUPS, w[k..]);
      }
    }
  }

  lemma InGroup(w: string)
    ensures In(Cat(Class({'-'}), Plus(Class(ALNUM))), w) <==>
      |w| >= 2 && w[0] == '-' && AllIn(ALNUM, w[1..])
  {
    if In(Cat(Class({'-'}), Plus(Class(ALNUM))), w) {
      var k :| 0 <= k <= |w| && In(Class({'-'}), w[..k]) && In(Plus(Class(ALNUM)), w[k..]);
      InPlusClass(ALNUM, w[k..]);
    }
    if |w| >= 2 && w[0] == '-' && AllIn(ALNUM, w[1..]) {
      InPlusClass(ALNUM, w[1..]);
      assert In(Class({'-'}), w[..1]);
    }
  }

  lemma HyphenThenGroup(w: string, k: nat)
    requires 1 <= k <= |w| && w[0] == '-' && (k < |w| ==> w[k] == '-')
    requires forall i :: 1 <= i < k ==> w[i] != '-'
    ensures Hyphenated(w) <==> k >= 2 && AllIn(ALNUM, w[..k][1..]) && Hyphenated(w[k..])
  {
    var v := w[1..];
    assert forall i :: 1 <= i < |w| ==> w[i] == v[i - 1];
    assert w[..k][1..] == w[1..k] == v[..k - 1] && v[k - 1..] == w[k..];
    if Hyphenated(w) || AllIn(ALNUM, w[1..k]) {
      HeadAndTail(v, k - 1);
    }
  }

  /** The expression accepts exactly the non-empty words over letters, digits and hyphens with
      no leading, trailing or doubled hyphen. */
  lemma NameMeans(w: string)
    ensures In(NAME, w) <==> w != "" && w[0] != '-' && Hyphenated(w)
  {
    if In(NAME, w) {
      var k :| 0 <= k <= |w| && In(Plus(Class(ALNUM)), w[..k]) && In(GROUPS, w[k..]);
      InPlusClass(ALNUM, w[..k]);
      InGroups(w[k..]);
      assert w[0] == w[..k][0];
      HeadAndTail(w, k);
    }
    if w != "" && w[0] != '-' && Hyphenated(w) {
      var k := Find(w, '-', 0);
      InPlusClass(ALNUM, w[..k]);
      HeadAndTail(w, k);
      InGroups(w[k..]);
      assert In(Plus(Class(ALNUM)), w[..k]) && In(GROUPS, w[k..]);
    }
  }
}
