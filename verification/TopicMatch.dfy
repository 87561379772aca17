/** Topic filter matching (MQTTClient.h, isTopicMatched; section 4.7 of MQTT 3.1.1). */
module TopicMatch {
  import opened Base

  const SEP: byte := 47
  const PLUS: byte := 43
  const HASH: byte := 35

  predicate Wildcard(c: byte) { c == PLUS || c == HASH }

  /**
   What the standard asks of a filter: a wildcard fills its level, and `#` comes last. Filters are C strings; the
   terminating zero is left out.
   */
  predicate WellFormed(f: Bytes) {
    forall k :: 0 <= k < |f| && Wildcard(f[k]) ==>
      && (k == 0 || f[k - 1] == SEP)
      && (k + 1 == |f| || f[k + 1] == SEP)
      && (f[k] == HASH ==> k + 1 == |f|)
  }

  predicate NoWildcard(s: Bytes) { forall k :: 0 <= k < |s| ==> !Wildcard(s[k]) }

  /** Where the level that starts at or runs through `i` ends. */
  function LevelEnd(s: Bytes, i: nat): (e: nat)
    requires i <= |s|
    ensures i <= e <= |s|
    ensures e < |s| ==> s[e] == SEP
    ensures forall k :: i <= k < e ==> s[k] != SEP
    decreases |s| - i
  {
    if i == |s| || s[i] == SEP then i else LevelEnd(s, i + 1)
  }

  /** A level of a filter that takes a level of a name: the same text, or a proper prefix of it and a `+`. */
  predicate LevelFits(p: Bytes, q: Bytes) {
    if NoWildcard(p) then p == q
    else NoWildcard(p[..|p| - 1]) && p[|p| - 1] == PLUS && p[..|p| - 1] < q
  }

  predicate EndsInHash(f: Bytes) { f != [] && f[|f| - 1] == HASH }

  /** A level ending in `#` that takes what starts with the level `q`: a proper prefix of it and the `#`. */
  predicate HashFits(p: Bytes, q: Bytes)
    requires p != []
  {
    NoWildcard(p[..|p| - 1]) && p[..|p| - 1] < q
  }

  /**
   Level by level, the relation the code decides, for all filters: `+` takes the rest of one level and `#` the rest of
   the name, but neither is tried where nothing of the level is left. A filter in which anything else follows a `#`, or
   stands in one level with a `+` before it, matches nothing.
   */
  predicate MatchFrom(f: Bytes, i: nat, n: Bytes, j: nat)
    requires i <= |f| && j <= |n|
    decreases |f| - i
  {
    var a, b := LevelEnd(f, i), LevelEnd(n, j);
    var p, q := f[i..a], n[j..b];
    if EndsInHash(p) then HashFits(p, q) && a == |f|
    else
      && LevelFits(p, q)
      && (a == |f| <==> b == |n|)
      && (a < |f| ==> MatchFrom(f, a + 1, n, b + 1))
  }

  /** The standard's relation: a wildcard level may be empty, and `#` also stands for the parent level. */
  predicate StandardFrom(f: Bytes, i: nat, n: Bytes, j: nat)
    requires i <= |f| && j <= |n|
    decreases |f| - i
  {
    var a, b := LevelEnd(f, i), LevelEnd(n, j);
    || f[i..a] == [HASH]
    || (&& (f[i..a] == [PLUS] || f[i..a] == n[j..b])
        && (if b == |n| then a == |f| || f[a + 1..] == [HASH]
            else a < |f| && StandardFrom(f, a + 1, n, b + 1)))
  }

  /** A level of the name that is empty stands where the filter has a wildcard. */
  predicate EmptyUnderWildcard(f: Bytes, i: nat, n: Bytes, j: nat)
    requires i <= |f| && j <= |n|
    decreases |f| - i
  {
    var a, b := LevelEnd(f, i), LevelEnd(n, j);
    || (f[i..a] in [[PLUS], [HASH]] && j == b)
    || (f[i..a] != [HASH] && a < |f| && b < |n| && EmptyUnderWildcard(f, a + 1, n, b + 1))
  }

  function LevelsFrom(s: Bytes, i: nat): (k: nat)
    requires i <= |s|
    ensures k >= 1
    decreases |s| - i
  {
    var e := LevelEnd(s, i);
    if e == |s| then 1 else 1 + LevelsFrom(s, e + 1)
  }

  /**
   On well-formed filters the code agrees with the standard except in two families: a filter ending in `#` does not
   match the level above the `#`, and a wildcard does not match an empty level.
   */
  lemma {:induction false} StandardExactly(f: Bytes, i: nat, n: Bytes, j: nat)
    requires i <= |f| && j <= |n|
    requires WellFormed(f) && (i == 0 || f[i - 1] == SEP)
    ensures MatchFrom(f, i, n, j) <==>
            && StandardFrom(f, i, n, j)
            && !(EndsInHash(f) && LevelsFrom(n, j) < LevelsFrom(f, i))
            && !EmptyUnderWildcard(f, i, n, j)
    decreases |f| - i
  {
    hide NoWildcard, LevelFits, HashFits, WellFormed;
    var a, b := LevelEnd(f, i), LevelEnd(n, j);
    LevelForm(f, i);
    if f[i..a] == [HASH] {
      assert f[i] == HASH;
    } else {
      if a < |f| && b < |n| {
        StandardExactly(f, a + 1, n, b + 1);
      }
      if a < |f| && b == |n| && f[a + 1..] == [HASH] {
        assert f[|f| - 1] == f[a + 1..][0];
      }
      if a < |f| && EndsInHash(f) && b == |n| && f[a + 1..] != [HASH] {
        assert LevelsFrom(f, i) >= 2;
      }
    }
  }

  /** A level of a well-formed filter has no wildcard or is one. */
  lemma LevelForm(f: Bytes, i: nat)
    requires WellFormed(f) && i <= |f| && (i == 0 || f[i - 1] == SEP)
    ensures var a := LevelEnd(f, i);
            var p := f[i..a];
            && (NoWildcard(p) || p == [PLUS] || (p == [HASH] && a == |f|))
            && (EndsInHash(p) <==> p == [HASH]) && (p == [HASH] ==> a == |f|)
            && (p == [HASH] ==> forall q: Bytes :: HashFits(p, q) <==> q != [])
            && (p != [HASH] ==> forall q :: LevelFits(p, q) <==> if p == [PLUS] then q != [] else p == q)
  {
    var a := LevelEnd(f, i);
    if k :| i <= k < a && Wildcard(f[k]) {
      assert k == 0 || f[k - 1] == SEP;
      assert k + 1 < |f| ==> f[k + 1] == SEP;
      assert f[i..a] == [f[k]];
      assert f[i..a][0] == f[k] && [f[k]][..0] == [];
    } else {
      assert forall k :: 0 <= k < a - i ==> f[i..a][k] == f[i + k];
    }
  }

  /** Where anything follows a `#`, or a `+` within its level, the filter matches nothing. */
  lemma {:induction false} MatchesNothing(f: Bytes, i: nat, n: Bytes, j: nat, k: nat)
    requires i <= k && k + 1 < |f| && j <= |n|
    requires f[k] == HASH || (f[k] == PLUS && f[k + 1] != SEP)
    ensures !MatchFrom(f, i, n, j)
    decreases |f| - i
  {
    var a, b := LevelEnd(f, i), LevelEnd(n, j);
    if k + 1 < a {
      assert f[i..a][..a - i - 1][k - i] == f[k];
    } else if k < a {
      assert f[i..a][a - i - 1] == f[k];
    } else if b < |n| {
      MatchesNothing(f, a + 1, n, b + 1, k);
    }
  }

  /** The end of a level is found one character at a time. */
  lemma LevelEndStep(s: Bytes, k: nat)
    requires k <= |s|
    ensures LevelEnd(s, k) == if k == |s| || s[k] == SEP then k else LevelEnd(s, k + 1)
  {
  }

  /** isTopicMatched: two pointers walked along filter and name. */
  method IsTopicMatched(f: Bytes, n: Bytes) returns (r: bool)
    ensures r == MatchFrom(f, 0, n, 0)
  {
    hide MatchFrom, LevelEnd;
    var curf: nat, curn: nat := 0, 0;
    while curf < |f| && curn < |n|
      invariant curf <= |f| && curn <= |n|
      invariant MatchFrom(f, curf, n, curn) == MatchFrom(f, 0, n, 0)
      decreases |f| - curf
    {
      if n[curn] == SEP && f[curf] != SEP {
        EmptyLevel(f, curf, n, curn);
        break;
      }
      if f[curf] != PLUS && f[curf] != HASH && f[curf] != n[curn] {
        Mismatch(f, curf, n, curn);
        break;
      }
      ghost var at := curn;
      if f[curf] == PLUS {
        var nextpos := curn + 1;
        LevelEndStep(n, curn);
        while nextpos < |n| && n[nextpos] != SEP
          invariant nextpos == curn + 1 <= |n|
          invariant at <= curn && LevelEnd(n, at) == LevelEnd(n, nextpos)
        {
          LevelEndStep(n, nextpos);
          curn := curn + 1;
          nextpos := curn + 1;
        }
        LevelEndStep(n, nextpos);
        PlusStep(f, curf, n, at);
      } else if f[curf] == HASH {
        curn := |n| - 1;
        HashStep(f, curf, n, at);
      } else {
        LiteralStep(f, curf, n, curn);
      }
      curf := curf + 1;
      curn := curn + 1;
    }
    r := curn == |n| && curf == |f|;
    if curf == |f| || curn == |n| {
      Exhausted(f, curf, n, curn);
    }
  }

  // One lemma for each way the walk can go on or stop.

  lemma EmptyLevel(f: Bytes, i: nat, n: Bytes, j: nat)
    requires i < |f| && j < |n| && n[j] == SEP && f[i] != SEP
    ensures !MatchFrom(f, i, n, j)
  {
    assert f[i] in f[i..LevelEnd(f, i)];
  }

  lemma Mismatch(f: Bytes, i: nat, n: Bytes, j: nat)
    requires i < |f| && j < |n| && !Wildcard(f[i]) && f[i] != n[j]
    ensures !MatchFrom(f, i, n, j)
  {
    var a, b := LevelEnd(f, i), LevelEnd(n, j);
    if f[i] == SEP {
      assert f[i..a] == [] && n[j] in n[j..b];
    } else {
      assert f[i..a][0] == f[i];
      assert j < b ==> n[j..b][0] == n[j];
    }
  }

  /** A wildcard that is not the last character of its level spoils it, and with nothing left no character fits. */
  lemma PlusStep(f: Bytes, i: nat, n: Bytes, j: nat)
    requires i < |f| && j < |n| && f[i] == PLUS && n[j] != SEP
    ensures MatchFrom(f, i, n, j) == MatchFrom(f, i + 1, n, LevelEnd(n, j))
  {
    var a, b := LevelEnd(f, i), LevelEnd(n, j);
    var p := f[i..a];
    assert a == LevelEnd(f, i + 1) && b == LevelEnd(n, b) && n[b..b] == [];
    assert p == [PLUS] + f[i + 1..a] && p[0] == PLUS && Wildcard(p[0]);
    if i + 1 < a {
      assert p[..|p| - 1][0] == PLUS;
    }
  }

  lemma HashStep(f: Bytes, i: nat, n: Bytes, j: nat)
    requires i < |f| && j < |n| && f[i] == HASH && n[j] != SEP
    ensures MatchFrom(f, i, n, j) == MatchFrom(f, i + 1, n, |n|)
  {
    var a, b := LevelEnd(f, i), LevelEnd(n, j);
    var p := f[i..a];
    assert a == LevelEnd(f, i + 1) && n[|n|..] == [];
    assert p == [HASH] + f[i + 1..a] && p[0] == HASH && Wildcard(p[0]);
    if i + 1 < a {
      assert p[..|p| - 1][0] == HASH;
    }
  }

  lemma LiteralStep(f: Bytes, i: nat, n: Bytes, j: nat)
    requires i < |f| && j < |n| && !Wildcard(f[i]) && f[i] == n[j]
    ensures MatchFrom(f, i, n, j) == MatchFrom(f, i + 1, n, j + 1)
  {
    hide NoWildcard, LevelFits, HashFits, EndsInHash;
    EmptyLevels();
    if f[i] == SEP {
      assert f[i..i] == [] == n[j..j];
    } else {
      var a, b := LevelEnd(f, i), LevelEnd(n, j);
      assert a == LevelEnd(f, i + 1) && b == LevelEnd(n, j + 1);
      assert f[i..a] == [f[i]] + f[i + 1..a] && n[j..b] == [n[j]] + n[j + 1..b];
      FirstLetter(f[i], f[i + 1..a], n[j + 1..b]);
    }
  }

  lemma EmptyLevels()
    ensures !EndsInHash([]) && LevelFits([], [])
  {
  }

  /** Dropping a common first character changes nothing about how two levels fit. */
  lemma FirstLetter(c: byte, p: Bytes, q: Bytes)
    requires !Wildcard(c)
    ensures LevelFits([c] + p, [c] + q) == LevelFits(p, q)
    ensures EndsInHash([c] + p) == EndsInHash(p)
    ensures p != [] ==> HashFits([c] + p, [c] + q) == HashFits(p, q)
  {
    hide NoWildcard;
    WildcardsBehind(c, p);
    Behind(c, p, q);
    if p != [] {
      var x := p[..|p| - 1];
      assert ([c] + p)[..|p|] == [c] + x;
      WildcardsBehind(c, x);
      Behind(c, x, q);
    } else {
      Single(c);
    }
  }

  lemma Single(c: byte)
    requires !Wildcard(c)
    ensures NoWildcard([c] + []) && NoWildcard([])
  {
  }

  lemma Behind(c: byte, x: Bytes, q: Bytes)
    ensures [c] + x == [c] + q <==> x == q
    ensures [c] + x < [c] + q <==> x < q
  {
    if [c] + x <= [c] + q {
      assert x == ([c] + x)[1..] == ([c] + q)[1..|x| + 1] == q[..|x|];
    }
    if x <= q {
      assert [c] + q == [c] + x + q[|x|..];
    }
  }

  lemma WildcardsBehind(c: byte, p: Bytes)
    requires !Wildcard(c)
    ensures NoWildcard([c] + p) == NoWildcard(p)
  {
    assert forall k :: 0 <= k < |p| ==> ([c] + p)[k + 1] == p[k];
    if NoWildcard(p) {
      forall k | 0 <= k < |[c] + p| ensures !Wildcard(([c] + p)[k]) {
        assert k > 0 ==> ([c] + p)[k] == p[k - 1];
      }
    }
  }

  lemma Exhausted(f: Bytes, i: nat, n: Bytes, j: nat)
    requires i <= |f| && j <= |n| && (i == |f| || j == |n|)
    ensures MatchFrom(f, i, n, j) <==> i == |f| && j == |n|
  {
    var a, b := LevelEnd(f, i), LevelEnd(n, j);
    if i < |f| && f[i] != SEP {
      assert f[i] in f[i..a];
    }
    if j < |n| && n[j] != SEP {
      assert n[j] in n[j..b];
    }
  }
}
