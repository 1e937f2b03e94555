/**
 * The characteristics of a note: an insertion-ordered dictionary from keys to values, kept as a
 * sequence of pairs, with the operations the checker applies to it and the canonical ordering
 * that rewriting a block imposes.
 */
module Characs {
  import opened Wrappers
  import opened Text

  type Characs = seq<(string, string)>

  /** The keys every person note should list, in this order. */
  const CanonicalKeys: seq<string> := ["Race", "Gender", "Birthday", "Age"]

  predicate HasKey(c: Characs, k: string) {
    exists i | 0 <= i < |c| :: c[i].0 == k
  }

  /** What makes a sequence of pairs a dictionary. */
  predicate DistinctKeys(c: Characs) {
    forall i, j | 0 <= i < j < |c| :: c[i].0 != c[j].0
  }

  /** `c.get(k)`. */
  function Get(c: Characs, k: string): (r: Option<string>)
    ensures r.Some? <==> HasKey(c, k)
    ensures r.Some? ==> exists i | 0 <= i < |c| :: c[i] == (k, r.value)
  {
    if c == [] then None
    else if c[0].0 == k then Some(c[0].1)
    else
      var r := Get(c[1..], k);
      if r.Some? then
        assert exists i | 0 <= i < |c| :: c[i] == (k, r.value) by {
          var i :| 0 <= i < |c[1..]| && c[1..][i] == (k, r.value);
          assert c[i + 1] == (k, r.value);
        }
        r
      else r
  }

  /** With distinct keys, the value stored at a position is the one `Get` returns. */
  lemma GetAt(c: Characs, i: int)
    requires DistinctKeys(c) && 0 <= i < |c|
    ensures Get(c, c[i].0) == Some(c[i].1)
  {
    var j :| 0 <= j < |c| && c[j] == (c[i].0, Get(c, c[i].0).value);
  }

  /** `c[k] = v` on an OrderedDict: a present key keeps its place and takes the new value, a new
      key goes at the end. */
  function Put(c: Characs, k: string, v: string): Characs {
    if c == [] then [(k, v)]
    else if c[0].0 == k then [(k, v)] + c[1..]
    else [c[0]] + Put(c[1..], k, v)
  }

  lemma HasKeyTail(c: Characs, k: string)
    requires c != [] && c[0].0 != k
    ensures HasKey(c, k) <==> HasKey(c[1..], k)
  {
    if HasKey(c, k) {
      var i :| 0 <= i < |c| && c[i].0 == k;
      assert c[1..][i - 1].0 == k;
    }
    if HasKey(c[1..], k) {
      var i :| 0 <= i < |c[1..]| && c[1..][i].0 == k;
      assert c[i + 1].0 == k;
    }
  }

  /** Storing a present key keeps the length and the order of the keys and changes no other
      key's entry; storing a new key appends it. */
  lemma {:induction false} PutShape(c: Characs, k: string, v: string)
    ensures HasKey(c, k) ==> |Put(c, k, v)| == |c|
    ensures !HasKey(c, k) ==> Put(c, k, v) == c + [(k, v)]
    ensures forall i | 0 <= i < |c| :: Put(c, k, v)[i].0 == c[i].0
    ensures forall i | 0 <= i < |c| && c[i].0 != k :: Put(c, k, v)[i] == c[i]
  {
    if c != [] && c[0].0 != k {
      HasKeyTail(c, k);
      PutShape(c[1..], k, v);
      var r := Put(c, k, v);
      assert r == [c[0]] + Put(c[1..], k, v);
      forall i | 0 < i < |c| ensures r[i] == Put(c[1..], k, v)[i - 1] && c[i] == c[1..][i - 1] {
      }
    } else if c != [] {
      assert HasKey(c, k) by { assert c[0].0 == k; }
    }
  }

  /** In a dictionary, storing a present key gives its entry the new value. */
  lemma {:induction false} PutOverwrites(c: Characs, k: string, v: string)
    requires DistinctKeys(c)
    ensures |Put(c, k, v)| >= |c|
    ensures forall i | 0 <= i < |c| && c[i].0 == k :: Put(c, k, v)[i] == (k, v)
  {
    if c != [] && c[0].0 != k {
      var tail := c[1..];
      assert DistinctKeys(tail) by {
        forall i, j | 0 <= i < j < |tail| ensures tail[i].0 != tail[j].0 {
          assert tail[i] == c[i + 1] && tail[j] == c[j + 1];
        }
      }
      PutOverwrites(tail, k, v);
      var r := Put(c, k, v);
      assert r == [c[0]] + Put(tail, k, v);
      forall i | 0 < i < |c| && c[i].0 == k ensures r[i] == (k, v) {
        assert r[i] == Put(tail, k, v)[i - 1] && c[i] == tail[i - 1];
      }
    } else if c != [] {
      forall i | 0 < i < |c| ensures c[i].0 != k {
        assert c[0].0 != c[i].0;
      }
    }
  }

  /** Storing keeps the keys distinct, makes `k` read `v` and leaves every other key alone. */
  lemma PutLookup(c: Characs, k: string, v: string)
    requires DistinctKeys(c)
    ensures DistinctKeys(Put(c, k, v))
    ensures Get(Put(c, k, v), k) == Some(v)
    ensures forall j :: j != k ==> Get(Put(c, k, v), j) == Get(c, j)
  {
    var r := Put(c, k, v);
    PutShape(c, k, v);
    PutOverwrites(c, k, v);
    if !HasKey(c, k) {
      PutNewKey(c, k, v);
    } else {
      PutPresentKey(c, k, v);
    }
  }

  lemma PutNewKey(c: Characs, k: string, v: string)
    requires DistinctKeys(c) && Put(c, k, v) == c + [(k, v)] && !HasKey(c, k)
    ensures DistinctKeys(Put(c, k, v))
    ensures Get(Put(c, k, v), k) == Some(v)
    ensures forall j :: j != k ==> Get(Put(c, k, v), j) == Get(c, j)
  {
    var r := c + [(k, v)];
    forall i, j | 0 <= i < j < |r| ensures r[i].0 != r[j].0 {
      if j == |c| {
        assert r[i] == c[i];
      } else {
        assert r[i] == c[i] && r[j] == c[j];
      }
    }
    GetAt(r, |c|);
    forall j | j != k ensures Get(r, j) == Get(c, j) {
      if HasKey(c, j) {
        var i :| 0 <= i < |c| && c[i].0 == j;
        GetAt(c, i);
        assert r[i] == c[i];
        GetAt(r, i);
      } else {
        forall i | 0 <= i < |c| ensures r[i].0 != j {
          assert r[i] == c[i];
        }
      }
    }
  }

  /** Storing a key the dictionary holds, given what `PutShape` says of it. */
  lemma PutPresentKey(c: Characs, k: string, v: string)
    requires DistinctKeys(c) && HasKey(c, k)
    requires |Put(c, k, v)| == |c|
    requires forall i | 0 <= i < |c| :: Put(c, k, v)[i].0 == c[i].0
    requires forall i | 0 <= i < |c| && c[i].0 != k :: Put(c, k, v)[i] == c[i]
    requires forall i | 0 <= i < |c| && c[i].0 == k :: Put(c, k, v)[i] == (k, v)
    ensures DistinctKeys(Put(c, k, v))
    ensures Get(Put(c, k, v), k) == Some(v)
    ensures forall j :: j != k ==> Get(Put(c, k, v), j) == Get(c, j)
  {
    var r := Put(c, k, v);
    assert DistinctKeys(r) by {
      forall i, j | 0 <= i < j < |r| ensures r[i].0 != r[j].0 {
        assert r[i].0 == c[i].0 && r[j].0 == c[j].0;
      }
    }
    var i0 :| 0 <= i0 < |c| && c[i0].0 == k;
    GetAt(r, i0);
    forall j | j != k ensures Get(r, j) == Get(c, j) {
      SameKeysSameGet(c, r, k, j);
    }
  }

  lemma SameKeysSameGet(c: Characs, r: Characs, k: string, j: string)
    requires DistinctKeys(c) && DistinctKeys(r) && |r| == |c| && j != k
    requires forall i | 0 <= i < |c| :: r[i].0 == c[i].0
    requires forall i | 0 <= i < |c| && c[i].0 != k :: r[i] == c[i]
    ensures Get(r, j) == Get(c, j)
  {
    if HasKey(c, j) {
      var i :| 0 <= i < |c| && c[i].0 == j;
      GetAt(c, i);
      GetAt(r, i);
    } else {
      forall i | 0 <= i < |r| ensures r[i].0 != j {
        assert r[i].0 == c[i].0;
      }
    }
  }

  // ---------------------------------------------------------------------------------------------
  // The canonical order of a rewritten block

  /** The canonical keys among `refs` that `c` holds, with their values, in the order of `refs`. */
  function CanonicalPart(c: Characs, refs: seq<string>): Characs {
    if refs == [] then []
    else
      var front := CanonicalPart(c, refs[..|refs| - 1]);
      var k := refs[|refs| - 1];
      match Get(c, k)
      case Some(v) => front + [(k, v)]
      case None => front
  }

  /** The entries of `c` whose keys are not canonical, in their order. */
  function OtherPart(c: Characs): Characs {
    if c == [] then []
    else
      var front := OtherPart(c[..|c| - 1]);
      if c[|c| - 1].0 in CanonicalKeys then front else front + [c[|c| - 1]]
  }

  /** The block the setter writes: the canonical keys present first, in canonical order, then
      the other keys in the order given. */
  function Reordered(c: Characs): Characs {
    CanonicalPart(c, CanonicalKeys) + OtherPart(c)
  }

  lemma {:induction false} CanonicalPartShape(c: Characs, refs: seq<string>)
    ensures forall i | 0 <= i < |CanonicalPart(c, refs)| ::
      CanonicalPart(c, refs)[i].0 in refs && Get(c, CanonicalPart(c, refs)[i].0) == Some(CanonicalPart(c, refs)[i].1)
    ensures forall k | k in refs && HasKey(c, k) :: exists i | 0 <= i < |CanonicalPart(c, refs)| :: CanonicalPart(c, refs)[i].0 == k
    ensures (forall i, j | 0 <= i < j < |refs| :: refs[i] != refs[j]) ==> DistinctKeys(CanonicalPart(c, refs))
  {
    if refs != [] {
      var front := refs[..|refs| - 1];
      var k := refs[|refs| - 1];
      CanonicalPartShape(c, front);
      var p := CanonicalPart(c, front);
      var r := CanonicalPart(c, refs);
      assert forall i | 0 <= i < |p| :: r[i] == p[i];
      forall j | j in refs && HasKey(c, j) ensures exists i | 0 <= i < |r| :: r[i].0 == j {
        if j != k {
          assert j in front;
          var i :| 0 <= i < |p| && p[i].0 == j;
          assert r[i].0 == j;
        } else {
          assert r[|p|].0 == j;
        }
      }
      if forall i, j | 0 <= i < j < |refs| :: refs[i] != refs[j] {
        assert forall i, j | 0 <= i < j < |front| :: front[i] != front[j] by {
          forall i, j | 0 <= i < j < |front| ensures front[i] != front[j] { assert front[i] == refs[i] && front[j] == refs[j]; }
        }
        forall i | 0 <= i < |p| ensures p[i].0 != k {
          var m :| 0 <= m < |front| && front[m] == p[i].0;
          assert refs[m] == front[m];
        }
      }
    }
  }

  lemma OtherPartShape(c: Characs)
    ensures forall i | 0 <= i < |OtherPart(c)| :: OtherPart(c)[i].0 !in CanonicalKeys && OtherPart(c)[i] in c
    ensures forall i | 0 <= i < |c| && c[i].0 !in CanonicalKeys :: HasKey(OtherPart(c), c[i].0)
    ensures DistinctKeys(c) ==> DistinctKeys(OtherPart(c))
  {
    OtherPartEntries(c);
    OtherPartCovers(c);
    if DistinctKeys(c) {
      OtherPartDistinct(c);
    }
  }

  lemma {:induction false} OtherPartEntries(c: Characs)
    ensures forall i | 0 <= i < |OtherPart(c)| :: OtherPart(c)[i].0 !in CanonicalKeys && OtherPart(c)[i] in c
  {
    if c != [] {
      var front := c[..|c| - 1];
      OtherPartEntries(front);
      var p := OtherPart(front);
      var r := OtherPart(c);
      forall i | 0 <= i < |r| ensures r[i].0 !in CanonicalKeys && r[i] in c {
        if i < |p| {
          assert r[i] == p[i] && p[i] in front;
        } else {
          assert r[i] == c[|c| - 1];
        }
      }
    }
  }

  lemma {:induction false} OtherPartCovers(c: Characs)
    ensures forall i | 0 <= i < |c| && c[i].0 !in CanonicalKeys :: HasKey(OtherPart(c), c[i].0)
  {
    if c != [] {
      var front := c[..|c| - 1];
      OtherPartCovers(front);
      var p := OtherPart(front);
      var r := OtherPart(c);
      forall i | 0 <= i < |c| && c[i].0 !in CanonicalKeys ensures HasKey(r, c[i].0) {
        if i < |front| {
          assert front[i] == c[i];
          var m :| 0 <= m < |p| && p[m].0 == c[i].0;
          assert r[m] == p[m];
        } else {
          assert r[|p|] == c[i];
        }
      }
    }
  }

  lemma {:induction false} OtherPartDistinct(c: Characs)
    requires DistinctKeys(c)
    ensures DistinctKeys(OtherPart(c))
  {
    if c != [] {
      var front := c[..|c| - 1];
      var last := c[|c| - 1];
      assert DistinctKeys(front) by {
        assert forall i | 0 <= i < |front| :: front[i] == c[i];
      }
      OtherPartDistinct(front);
      var p := OtherPart(front);
      if last.0 !in CanonicalKeys {
        OtherPartEntries(front);
        forall i | 0 <= i < |p| ensures p[i].0 != last.0 {
          var m :| 0 <= m < |front| && front[m] == p[i];
          assert front[m] == c[m];
        }
        assert OtherPart(c) == p + [last];
      }
    }
  }

  lemma ReorderedDistinct(c: Characs)
    requires DistinctKeys(c)
    ensures DistinctKeys(Reordered(c))
  {
    var a := CanonicalPart(c, CanonicalKeys);
    var b := OtherPart(c);
    assert DistinctKeys(a) && forall i | 0 <= i < |a| :: a[i].0 in CanonicalKeys by {
      CanonicalPartShape(c, CanonicalKeys);
    }
    assert DistinctKeys(b) && forall i | 0 <= i < |b| :: b[i].0 !in CanonicalKeys by {
      OtherPartShape(c);
    }
    DistinctConcat(a, b, CanonicalKeys);
  }

  /** Two dictionaries, one with keys from `ks` and one with keys outside it, join into one. */
  lemma DistinctConcat(a: Characs, b: Characs, ks: seq<string>)
    requires DistinctKeys(a) && forall i | 0 <= i < |a| :: a[i].0 in ks
    requires DistinctKeys(b) && forall i | 0 <= i < |b| :: b[i].0 !in ks
    ensures DistinctKeys(a + b)
  {
    var r := a + b;
    forall i, j | 0 <= i < j < |r| ensures r[i].0 != r[j].0 {
      if j < |a| {
        assert r[i] == a[i] && r[j] == a[j];
      } else if i >= |a| {
        assert r[i] == b[i - |a|] && r[j] == b[j - |a|];
      } else {
        assert r[i] == a[i] && r[j] == b[j - |a|];
      }
    }
  }

  lemma ReorderedLookup(c: Characs, k: string)
    requires DistinctKeys(c)
    ensures Get(Reordered(c), k) == Get(c, k)
  {
    if !HasKey(c, k) {
      ReorderedLookupAbsent(c, k);
    } else if k in CanonicalKeys {
      ReorderedLookupCanonical(c, k);
    } else {
      ReorderedLookupOther(c, k);
    }
  }

  lemma ReorderedLookupCanonical(c: Characs, k: string)
    requires DistinctKeys(c) && HasKey(c, k) && k in CanonicalKeys
    ensures Get(Reordered(c), k) == Get(c, k)
  {
    var a := CanonicalPart(c, CanonicalKeys);
    var r := a + OtherPart(c);
    ReorderedDistinct(c);
    CanonicalPartShape(c, CanonicalKeys);
    var m :| 0 <= m < |a| && a[m].0 == k;
    assert r[m] == a[m];
    GetAt(r, m);
  }

  lemma ReorderedLookupOther(c: Characs, k: string)
    requires DistinctKeys(c) && HasKey(c, k) && k !in CanonicalKeys
    ensures Get(Reordered(c), k) == Get(c, k)
  {
    var a := CanonicalPart(c, CanonicalKeys);
    var b := OtherPart(c);
    var r := a + b;
    assert HasKey(b, k) by {
      OtherPartShape(c);
      var i :| 0 <= i < |c| && c[i].0 == k;
    }
    var m :| 0 <= m < |b| && b[m].0 == k;
    assert b[m] in c by {
      OtherPartShape(c);
    }
    var n :| 0 <= n < |c| && c[n] == b[m];
    assert Get(c, k) == Some(b[m].1) by {
      GetAt(c, n);
    }
    assert Get(r, k) == Some(b[m].1) by {
      ReorderedDistinct(c);
      assert r[|a| + m] == b[m];
      GetAt(r, |a| + m);
    }
  }

  lemma ReorderedLookupAbsent(c: Characs, k: string)
    requires !HasKey(c, k)
    ensures Get(Reordered(c), k) == None
  {
    var a := CanonicalPart(c, CanonicalKeys);
    var b := OtherPart(c);
    var r := a + b;
    CanonicalPartShape(c, CanonicalKeys);
    OtherPartShape(c);
    forall m | 0 <= m < |r| ensures r[m].0 != k {
      if m < |a| {
        assert r[m] == a[m];
      } else {
        assert r[m] == b[m - |a|];
        assert b[m - |a|] in c;
      }
    }
  }

  /**
   * The rewritten block is a reordering of the dictionary it was given: its keys are distinct and
   * every key reads the value it had (so it holds the same keys); the canonical keys present
   * come first, and every other key follows.
   */
  lemma ReorderedSameEntries(c: Characs)
    requires DistinctKeys(c)
    ensures DistinctKeys(Reordered(c))
    ensures forall k :: Get(Reordered(c), k) == Get(c, k)
    ensures forall i | 0 <= i < |Reordered(c)| ::
      (Reordered(c)[i].0 in CanonicalKeys <==> i < |CanonicalPart(c, CanonicalKeys)|)
  {
    ReorderedDistinct(c);
    forall k ensures Get(Reordered(c), k) == Get(c, k) {
      ReorderedLookup(c, k);
    }
    var a := CanonicalPart(c, CanonicalKeys);
    CanonicalPartShape(c, CanonicalKeys);
    OtherPartShape(c);
    forall i | 0 <= i < |Reordered(c)| ensures Reordered(c)[i].0 in CanonicalKeys <==> i < |a| {
      if i < |a| { assert Reordered(c)[i] == a[i]; } else { assert Reordered(c)[i] == OtherPart(c)[i - |a|]; }
    }
  }

  /** A dictionary whose keys are already in canonical order, with nothing else, is left as it is. */
  lemma ReorderedCanonical(race: string, gender: string, birthday: string, age: string)
    ensures var c := [("Race", race), ("Gender", gender), ("Birthday", birthday), ("Age", age)];
      Reordered(c) == c
  {
    var c := [("Race", race), ("Gender", gender), ("Birthday", birthday), ("Age", age)];
    assert DistinctKeys(c);
    GetAt(c, 0);
    GetAt(c, 1);
    GetAt(c, 2);
    GetAt(c, 3);
    assert ["Race"][..0] == [];
    assert CanonicalPart(c, ["Race"]) == c[..1];
    assert ["Race", "Gender"][..1] == ["Race"];
    assert CanonicalPart(c, ["Race", "Gender"]) == c[..2];
    assert ["Race", "Gender", "Birthday"][..2] == ["Race", "Gender"];
    assert CanonicalPart(c, ["Race", "Gender", "Birthday"]) == c[..3];
    assert CanonicalKeys[..3] == ["Race", "Gender", "Birthday"];
    assert CanonicalPart(c, CanonicalKeys) == c;
    assert c[..1][..0] == [];
    assert OtherPart(c[..1]) == [];
    assert c[..2][..1] == c[..1];
    assert OtherPart(c[..2]) == [];
    assert c[..3][..2] == c[..2];
    assert OtherPart(c[..3]) == [];
    assert OtherPart(c) == [];
  }

  // ---------------------------------------------------------------------------------------------
  // Block lines

  /** The line the setter writes for one entry. */
  function RenderLine(k: string, v: string): string {
    "* " + k + ": " + v
  }

  function Render(c: Characs): (lines: seq<string>)
    ensures |lines| == |c|
    ensures forall i | 0 <= i < |c| :: lines[i] == RenderLine(c[i].0, c[i].1)
  {
    seq(|c|, i requires 0 <= i < |c| => RenderLine(c[i].0, c[i].1))
  }

  /** The entry a block line contributes: the text between "* " and the first ':' and the text
      after it, both stripped, when the line has a ':' and starts "* " with a non-blank key. */
  function KeyedEntry(line: string): Option<(string, string)> {
    var (key, ok, val) := Partition(line, ':');
    if ok && |key| >= 2 && key[..2] == "* " && Strip(key[2..]) != [] then
      Some((Strip(key[2..]), Strip(val)))
    else None
  }

  /** No leading or trailing whitespace. */
  predicate Unpadded(s: string) {
    s == [] || (!IsSpace(s[0]) && !IsSpace(s[|s| - 1]))
  }

  /** A key and value the block format can carry: the key non-empty, without ':' or padding; the
      value without padding. */
  predicate Writable(k: string, v: string) {
    k != [] && ':' !in k && Unpadded(k) && Unpadded(v)
  }

  /** A written line reads back as its entry. */
  lemma RenderLineReads(k: string, v: string)
    requires Writable(k, v)
    ensures KeyedEntry(RenderLine(k, v)) == Some((k, v))
  {
    var key := "* " + k;
    var rest := " " + v;
    assert Partition(RenderLine(k, v), ':') == (key, true, rest) by {
      assert ':' !in key by {
        forall i | 0 <= i < |key| ensures key[i] != ':' {
          if i >= 2 { assert key[i] == k[i - 2]; }
        }
      }
      assert RenderLine(k, v) == key + [':'] + rest;
      PartitionAt(key, rest, ':');
    }
    assert key[..2] == "* " && key[2..] == k;
    assert Strip(k) == k by {
      StripPadded([], k, []);
      assert [] + k + [] == k;
    }
    assert Strip(rest) == v by {
      StripPadded(" ", v, []);
      assert " " + v + [] == rest;
    }
  }
}
