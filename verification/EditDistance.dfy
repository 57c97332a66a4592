/** The single-row Levenshtein loop, the edit scripts it measures, and the closest-match search. */
module EditDistance {
  type Text = seq<char>

  function Min(a: int, b: int): int {
    if a < b then a else b
  }

  /** The recurrence behind the table. */
  function Distance(a: Text, b: Text): nat
    decreases |a| + |b|
  {
    if a == [] then |b|
    else if b == [] then |a|
    else if a[|a| - 1] == b[|b| - 1] then Distance(a[..|a| - 1], b[..|b| - 1])
    else 1 + Min(Distance(a[..|a| - 1], b[..|b| - 1]), Min(Distance(a[..|a| - 1], b), Distance(a, b[..|b| - 1])))
  }

  // ---- The loop ----

  lemma DistanceCell(a: Text, b: Text, i: int, j: int)
    requires 0 < i <= |a| && 0 < j <= |b|
    ensures Distance(a[..i], b[..j]) ==
            if a[i - 1] == b[j - 1] then Distance(a[..i - 1], b[..j - 1])
            else 1 + Min(Distance(a[..i - 1], b[..j - 1]),
                         Min(Distance(a[..i - 1], b[..j]), Distance(a[..i], b[..j - 1])))
  {
    assert a[..i][..i - 1] == a[..i - 1] && b[..j][..j - 1] == b[..j - 1];
  }

  /** Cells before `done` belong to row i of the table, the others still to row i - 1. */
  ghost predicate RowHolds(row: seq<int>, a: Text, b: Text, i: int, done: int)
    requires |row| == |b| + 1 && 0 < i <= |a|
  {
    && (forall j :: 0 <= j < done && j <= |b| ==> row[j] == Distance(a[..i], b[..j]))
    && (forall j :: 0 <= j <= |b| && done <= j ==> row[j] == Distance(a[..i - 1], b[..j]))
  }

  lemma RowGrows(row: seq<int>, a: Text, b: Text, i: int, j: int, cell: int)
    requires |row| == |b| + 1 && 0 < i <= |a| && 0 <= j <= |b|
    requires RowHolds(row, a, b, i, j) && cell == Distance(a[..i], b[..j])
    ensures RowHolds(row[j := cell], a, b, i, j + 1)
  {
  }

  method UpdateRow(row: array<int>, a: Text, b: Text, i: nat)
    requires row.Length == |b| + 1 && 0 < i <= |a|
    requires forall j :: 0 <= j <= |b| ==> row[j] == Distance(a[..i - 1], b[..j])
    modifies row
    ensures forall j :: 0 <= j <= |b| ==> row[j] == Distance(a[..i], b[..j])
  {
    ghost var before := row[..];
    var prev := row[0];
    row[0] := i;
    assert b[..0] == [] && a[..i] != [];
    RowGrows(before, a, b, i, 0, i);
    assert row[..] == before[0 := i];
    for j := 1 to |b| + 1
      invariant RowHolds(row[..], a, b, i, j)
      invariant prev == Distance(a[..i - 1], b[..j - 1])
    {
      var tmp := row[j];
      DistanceCell(a, b, i, j);
      before := row[..];
      if a[i - 1] == b[j - 1] {
        row[j] := prev;
      } else {
        row[j] := 1 + Min(prev, Min(row[j], row[j - 1]));
      }
      RowGrows(before, a, b, i, j, row[j]);
      assert row[..] == before[j := row[j]];
      prev := tmp;
    }
  }

  method Levenshtein(a: Text, b: Text) returns (d: int)
    ensures d == Distance(a, b)
  {
    var row := new int[|b| + 1];
    for j := 0 to |b| + 1
      invariant forall k :: 0 <= k < j ==> row[k] == k
    {
      row[j] := j;
    }
    assert a[..0] == [];
    for i := 1 to |a| + 1
      invariant forall j :: 0 <= j <= |b| ==> row[j] == Distance(a[..i - 1], b[..j])
    {
      UpdateRow(row, a, b, i);
    }
    assert a[..|a|] == a && b[..|b|] == b;
    d := row[|b|];
  }

  // ---- Scripts of single edits ----

  datatype Edit = Insert(at: nat, c: char) | Delete(at: nat) | Substitute(at: nat, c: char)

  predicate Applies(e: Edit, a: Text) {
    if e.Insert? then e.at <= |a| else e.at < |a|
  }

  function Apply(e: Edit, a: Text): Text
    requires Applies(e, a)
  {
    match e
    case Insert(at, c) => a[..at] + [c] + a[at..]
    case Delete(at) => a[..at] + a[at + 1..]
    case Substitute(at, c) => a[at := c]
  }

  /** The script turns a into b, one insertion, deletion or substitution after the other. */
  ghost predicate Rewrites(script: seq<Edit>, a: Text, b: Text)
    decreases |script|
  {
    if script == [] then a == b
    else Applies(script[0], a) && Rewrites(script[1..], Apply(script[0], a), b)
  }

  // ---- Symmetry and the triangle inequality ----

  lemma {:induction false} Symmetric(a: Text, b: Text)
    ensures Distance(a, b) == Distance(b, a)
    decreases |a| + |b|
  {
    if a != [] && b != [] {
      Symmetric(a[..|a| - 1], b[..|b| - 1]);
      Symmetric(a[..|a| - 1], b);
      Symmetric(a, b[..|b| - 1]);
    }
  }

  /** Dropping a last character changes the distance by at most one. */
  lemma {:induction false} DropLast(a: Text, b: Text)
    requires a != []
    ensures Distance(a, b) <= Distance(a[..|a| - 1], b) + 1
    ensures Distance(a[..|a| - 1], b) <= Distance(a, b) + 1
    decreases |a| + |b|
  {
    var a' := a[..|a| - 1];
    if b != [] {
      var b' := b[..|b| - 1];
      DropLast(a, b');
      Symmetric(a', b);
      Symmetric(a', b');
      DropLast(b, a');
      if a' != [] {
        DropLast(a', b');
        DropLast(a', b);
      }
      Symmetric(a, b);
      Symmetric(a, b');
    }
  }

  function Differ(x: char, y: char): nat {
    if x == y then 0 else 1
  }

  /** The recurrence taken as a minimum in every case. */
  lemma MinimumForm(a: Text, b: Text)
    requires a != [] && b != []
    ensures Distance(a, b) <= Distance(a[..|a| - 1], b) + 1
    ensures Distance(a, b) <= Distance(a, b[..|b| - 1]) + 1
    ensures Distance(a, b) <= Distance(a[..|a| - 1], b[..|b| - 1]) + Differ(a[|a| - 1], b[|b| - 1])
    ensures || Distance(a, b) == Distance(a[..|a| - 1], b) + 1
            || Distance(a, b) == Distance(a, b[..|b| - 1]) + 1
            || Distance(a, b) == Distance(a[..|a| - 1], b[..|b| - 1]) + Differ(a[|a| - 1], b[|b| - 1])
  {
    DropLast(a, b);
    DropLast(b, a);
    Symmetric(a, b);
    Symmetric(a, b[..|b| - 1]);
  }

  lemma {:induction false} Triangle(a: Text, b: Text, c: Text)
    ensures Distance(a, c) <= Distance(a, b) + Distance(b, c)
    decreases |a| + |b| + |c|
  {
    if b == [] {
      AtMostBoth(a, c);
      Symmetric(a, b);
    } else if a == [] {
      AtLeastLonger(b, c);
    } else if c == [] {
      Symmetric(a, b);
      AtLeastLonger(b, a);
      Symmetric(b, c);
      Symmetric(a, c);
    } else {
      TriangleStep(a, b, c);
    }
  }

  /** How the recurrence reaches the distance: dropping from a, dropping from b, or pairing the last characters. */
  datatype LastMove = DropFirst | DropSecond | Pair

  ghost function MoveOf(a: Text, b: Text): (m: LastMove)
    requires a != [] && b != []
    ensures m == DropFirst ==> Distance(a, b) == Distance(a[..|a| - 1], b) + 1
    ensures m == DropSecond ==> Distance(a, b) == Distance(a, b[..|b| - 1]) + 1
    ensures m == Pair ==> Distance(a, b) == Distance(a[..|a| - 1], b[..|b| - 1]) + Differ(a[|a| - 1], b[|b| - 1])
  {
    MinimumForm(a, b);
    if Distance(a, b) == Distance(a[..|a| - 1], b) + 1 then DropFirst
    else if Distance(a, b) == Distance(a, b[..|b| - 1]) + 1 then DropSecond
    else Pair
  }

  /** The case analysis over the last moves from a to b and from b to c. */
  lemma {:induction false} TriangleStep(a: Text, b: Text, c: Text)
    requires a != [] && b != [] && c != []
    ensures Distance(a, c) <= Distance(a, b) + Distance(b, c)
    decreases |a| + |b| + |c|, 0
  {
    var a', b', c' := a[..|a| - 1], b[..|b| - 1], c[..|c| - 1];
    MinimumForm(a, c);
    match (MoveOf(a, b), MoveOf(b, c))
    case (DropFirst, _) => Triangle(a', b, c);
    case (_, DropSecond) => Triangle(a, b, c');
    case (DropSecond, DropFirst) => Triangle(a, b', c);
    case (DropSecond, Pair) => Triangle(a, b', c');
    case (Pair, DropFirst) => Triangle(a', b', c);
    case (Pair, Pair) => Triangle(a', b', c');
  }

  lemma {:induction false} AtMostBoth(a: Text, c: Text)
    ensures Distance(a, c) <= |a| + |c|
    decreases |a|
  {
    if a != [] {
      AtMostBoth(a[..|a| - 1], c);
      DropLast(a, c);
    }
  }

  lemma {:induction false} AtLeastLonger(b: Text, c: Text)
    ensures |c| <= |b| + Distance(b, c)
    decreases |b|
  {
    if b != [] {
      AtLeastLonger(b[..|b| - 1], c);
      DropLast(b, c);
    }
  }

  // ---- The distance is the length of a shortest script ----

  lemma {:induction false} ZeroIffEqual(a: Text, b: Text)
    ensures Distance(a, b) == 0 <==> a == b
    decreases |a| + |b|
  {
    if a != [] && b != [] {
      var a', b' := a[..|a| - 1], b[..|b| - 1];
      ZeroIffEqual(a', b');
      assert a == a' + [a[|a| - 1]] && b == b' + [b[|b| - 1]];
    }
  }

  lemma {:induction false} CommonSuffix(a: Text, b: Text, s: Text)
    ensures Distance(a + s, b + s) <= Distance(a, b)
    decreases |s|
  {
    if s == [] {
      assert a + s == a && b + s == b;
    } else {
      var s' := s[..|s| - 1];
      assert (a + s)[..|a + s| - 1] == a + s' && (b + s)[..|b + s| - 1] == b + s';
      CommonSuffix(a, b, s');
    }
  }

  /** Appending one character, or replacing the last one, is at distance at most one. */
  lemma LastCharacterEdits(p: Text, x: char, y: char)
    ensures Distance(p, p + [x]) <= 1 && Distance(p + [x], p) <= 1 && Distance(p + [x], p + [y]) <= 1
  {
    var px, py := p + [x], p + [y];
    assert px[..|px| - 1] == p && py[..|py| - 1] == p;
    ZeroIffEqual(p, p);
    DropLast(px, p);
    Symmetric(p, px);
    MinimumForm(px, py);
  }

  /** One edit is at distance at most one. */
  lemma SingleEdit(e: Edit, a: Text)
    requires Applies(e, a)
    ensures Distance(a, Apply(e, a)) <= 1
  {
    var at := e.at;
    var p := a[..at];
    if e.Insert? {
      LastCharacterEdits(p, e.c, e.c);
      SplitForInsert(a, at, e.c);
      CommonSuffix(p, p + [e.c], a[at..]);
    } else {
      SplitAt(a, at, if e.Substitute? then e.c else a[at]);
      if e.Delete? {
        LastCharacterEdits(p, a[at], a[at]);
        CommonSuffix(p + [a[at]], p, a[at + 1..]);
      } else {
        LastCharacterEdits(p, a[at], e.c);
        CommonSuffix(p + [a[at]], p + [e.c], a[at + 1..]);
      }
    }
  }

  lemma SplitForInsert(a: Text, at: nat, c: char)
    requires at <= |a|
    ensures a == a[..at] + a[at..]
    ensures Apply(Insert(at, c), a) == a[..at] + [c] + a[at..]
  {
  }

  lemma SplitAt(a: Text, at: nat, c: char)
    requires at < |a|
    ensures a == a[..at] + [a[at]] + a[at + 1..]
    ensures a[at := c] == a[..at] + [c] + a[at + 1..]
  {
  }

  /** No script is shorter than the distance. */
  lemma {:induction false} ScriptIsNoShorter(script: seq<Edit>, a: Text, b: Text)
    requires Rewrites(script, a, b)
    ensures Distance(a, b) <= |script|
    decreases |script|
  {
    if script == [] {
      ZeroIffEqual(a, b);
    } else {
      var mid := Apply(script[0], a);
      ScriptIsNoShorter(script[1..], mid, b);
      SingleEdit(script[0], a);
      Triangle(a, mid, b);
    }
  }

  /** A script works as well in front of unchanged text. */
  lemma {:induction false} ScriptBeforeSuffix(script: seq<Edit>, a: Text, b: Text, s: Text)
    requires Rewrites(script, a, b)
    ensures Rewrites(script, a + s, b + s)
    decreases |script|
  {
    if script != [] {
      var e := script[0];
      assert Apply(e, a + s) == Apply(e, a) + s;
      ScriptBeforeSuffix(script[1..], Apply(e, a), b, s);
    }
  }

  lemma {:induction false} ScriptAppend(script: seq<Edit>, a: Text, b: Text, e: Edit)
    requires Rewrites(script, a, b) && Applies(e, b)
    ensures Rewrites(script + [e], a, Apply(e, b))
    decreases |script|
  {
    var longer := script + [e];
    if script == [] {
      assert longer[1..] == [];
    } else {
      assert longer[1..] == script[1..] + [e];
      ScriptAppend(script[1..], Apply(script[0], a), b, e);
    }
  }

  lemma {:induction false} ScriptPrepend(e: Edit, script: seq<Edit>, a: Text, b: Text)
    requires Applies(e, a) && Rewrites(script, Apply(e, a), b)
    ensures Rewrites([e] + script, a, b)
  {
    assert ([e] + script)[1..] == script;
  }

  /** The table's choices give a script of that length. */
  lemma {:induction false} ShortestScript(a: Text, b: Text) returns (script: seq<Edit>)
    ensures Rewrites(script, a, b) && |script| == Distance(a, b)
    decreases |a| + |b|
  {
    if a == [] && b == [] {
      script := [];
    } else if a == [] {
      var b' := b[..|b| - 1];
      script := ShortestScript(a, b');
      ScriptAppend(script, a, b', Insert(|b'|, b[|b| - 1]));
      assert Apply(Insert(|b'|, b[|b| - 1]), b') == b;
      script := script + [Insert(|b'|, b[|b| - 1])];
    } else if b == [] {
      var a' := a[..|a| - 1];
      script := ShortestScript(a', b);
      assert Apply(Delete(|a'|), a) == a';
      ScriptPrepend(Delete(|a'|), script, a, b);
      script := [Delete(|a'|)] + script;
    } else {
      script := ShortestOfThree(a, b);
    }
  }

  lemma {:induction false} ShortestOfThree(a: Text, b: Text) returns (script: seq<Edit>)
    requires a != [] && b != []
    ensures Rewrites(script, a, b) && |script| == Distance(a, b)
    decreases |a| + |b|, 0
  {
    var x, y := a[|a| - 1], b[|b| - 1];
    var a', b' := a[..|a| - 1], b[..|b| - 1];
    assert a == a' + [x] && b == b' + [y];
    var diag, del, ins := Distance(a', b'), Distance(a', b), Distance(a, b');
    if x == y || (diag <= del && diag <= ins) {
      var inner := ShortestScript(a', b');
      script := Replaced(inner, a', b', x, y);
    } else if del <= ins {
      var inner := ShortestScript(a', b);
      script := Deleted(inner, a, b);
    } else {
      var inner := ShortestScript(a, b');
      script := Inserted(inner, a, b', y);
    }
  }

  lemma Replaced(inner: seq<Edit>, a: Text, b: Text, x: char, y: char) returns (script: seq<Edit>)
    requires Rewrites(inner, a, b)
    ensures Rewrites(script, a + [x], b + [y]) && |script| == |inner| + Differ(x, y)
  {
    script := inner;
    ScriptBeforeSuffix(script, a, b, [x]);
    if x != y {
      ScriptAppend(script, a + [x], b + [x], Substitute(|b|, y));
      assert Apply(Substitute(|b|, y), b + [x]) == b + [y];
      script := script + [Substitute(|b|, y)];
    }
  }

  lemma Deleted(inner: seq<Edit>, a: Text, b: Text) returns (script: seq<Edit>)
    requires a != [] && Rewrites(inner, a[..|a| - 1], b)
    ensures Rewrites(script, a, b) && |script| == |inner| + 1
  {
    assert Apply(Delete(|a| - 1), a) == a[..|a| - 1];
    ScriptPrepend(Delete(|a| - 1), inner, a, b);
    script := [Delete(|a| - 1)] + inner;
  }

  lemma Inserted(inner: seq<Edit>, a: Text, b: Text, y: char) returns (script: seq<Edit>)
    requires Rewrites(inner, a, b)
    ensures Rewrites(script, a, b + [y]) && |script| == |inner| + 1
  {
    ScriptAppend(inner, a, b, Insert(|b|, y));
    assert Apply(Insert(|b|, y), b) == b + [y];
    script := inner + [Insert(|b|, y)];
  }

  /** The distance is attained by a script, and by none that is shorter. */
  lemma DistanceIsMinimal(a: Text, b: Text)
    ensures exists script :: Rewrites(script, a, b) && |script| == Distance(a, b)
    ensures forall script :: Rewrites(script, a, b) ==> Distance(a, b) <= |script|
  {
    var shortest := ShortestScript(a, b);
    forall script | Rewrites(script, a, b) ensures Distance(a, b) <= |script| {
      ScriptIsNoShorter(script, a, b);
    }
  }

  // ---- Closest match ----

  /** The first candidate at the smallest distance; the empty string and -1 when there is none. */
  method ClosestMatch(query: Text, candidates: seq<Text>) returns (best: Text, bestDist: int)
    ensures candidates == [] ==> best == "" && bestDist == -1
    ensures candidates != [] ==>
              exists i :: 0 <= i < |candidates| && best == candidates[i] && bestDist == Distance(query, best)
                          && (forall j :: 0 <= j < |candidates| ==> bestDist <= Distance(query, candidates[j]))
                          && (forall j :: 0 <= j < i ==> bestDist < Distance(query, candidates[j]))
  {
    best, bestDist := "", -1;
    ghost var at := 0;
    for k := 0 to |candidates|
      invariant k == 0 ==> best == "" && bestDist == -1
      invariant k > 0 ==> 0 <= at < k && best == candidates[at] && bestDist == Distance(query, best)
      invariant k > 0 ==> forall j :: 0 <= j < k ==> bestDist <= Distance(query, candidates[j])
      invariant k > 0 ==> forall j :: 0 <= j < at ==> bestDist < Distance(query, candidates[j])
    {
      var d := Levenshtein(query, candidates[k]);
      if bestDist < 0 || d < bestDist {
        best, bestDist := candidates[k], d;
        at := k;
      }
    }
  }
}
