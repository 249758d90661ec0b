/** The process tree printed from a flat table of (pid, ppid, name) entries (SP_HW4/12-2.c). */
module ProcessTree {
  import opened CLibrary

  /** `ppid` is -1 when the status file names no parent. */
  datatype Process = Process(pid: nat, ppid: int, name: string)

  type Table = seq<Process>

  datatype Option<T> = None | Some(value: T)

  ghost predicate Distinct(t: Table) {
    forall i, j | 0 <= i < j < |t| :: t[i].pid != t[j].pid
  }

  function Pids(t: Table): set<nat> {
    set i | 0 <= i < |t| :: t[i].pid
  }

  function IndexOf(t: Table, pid: nat): (i: nat)
    ensures i <= |t| && forall k | 0 <= k < i :: t[k].pid != pid
    ensures i < |t| ==> t[i].pid == pid
    ensures i < |t| <==> pid in Pids(t)
  {
    if t == [] || t[0].pid == pid then 0
    else
      assert Pids(t) == {t[0].pid} + Pids(t[1..]) by { PidsOfTail(t); }
      1 + IndexOf(t[1..], pid)
  }

  lemma PidsOfTail(t: Table)
    requires t != []
    ensures Pids(t) == {t[0].pid} + Pids(t[1..])
  {
    forall p
      ensures p in Pids(t) <==> p in {t[0].pid} + Pids(t[1..])
    {
      if p in Pids(t) {
        var i :| 0 <= i < |t| && t[i].pid == p;
        if i > 0 {
          assert t[1..][i - 1].pid == p;
        }
      }
      if p in Pids(t[1..]) {
        var i :| 0 <= i < |t[1..]| && t[1..][i].pid == p;
        assert t[i + 1].pid == p;
      }
    }
  }

  function Parent(t: Table, pid: nat): Option<nat> {
    var i := IndexOf(t, pid);
    if i < |t| && t[i].ppid >= 0 then Some(t[i].ppid) else None
  }

  /** k generations up. */
  function Up(t: Table, pid: nat, k: nat): Option<nat>
    decreases k
  {
    if k == 0 then Some(pid)
    else
      match Parent(t, pid)
      case None => None
      case Some(p) => Up(t, p, k - 1)
  }

  /** No process is its own proper ancestor. */
  ghost predicate Acyclic(t: Table) {
    forall pid: nat, k: nat | k > 0 :: Up(t, pid, k) != Some(pid)
  }

  lemma {:induction false} UpAdd(t: Table, pid: nat, j: nat, k: nat)
    requires Up(t, pid, j).Some?
    ensures Up(t, pid, j + k) == Up(t, Up(t, pid, j).value, k)
    decreases j
  {
    if j > 0 {
      UpAdd(t, Parent(t, pid).value, j - 1, k);
    }
  }

  lemma {:induction false} UpPrefix(t: Table, pid: nat, j: nat, k: nat)
    requires j <= k && Up(t, pid, k).Some?
    ensures Up(t, pid, j).Some?
    decreases j
  {
    if j > 0 {
      UpPrefix(t, Parent(t, pid).value, j - 1, k - 1);
    }
  }

  // ---------- the preorder ----------

  datatype Line = Line(level: nat, pid: nat, name: string)

  ghost predicate Above(t: Table, pid: nat, a: nat) {
    exists k: nat :: Up(t, pid, k) == Some(a)
  }

  /** `path` holds pid and some of its ancestors; the recursion never comes back to any of them. */
  ghost predicate Descending(t: Table, pid: nat, path: set<nat>) {
    Distinct(t) && Acyclic(t) && pid in path && forall a | a in path :: Above(t, pid, a)
  }

  predicate IsChild(t: Table, pid: nat, j: nat) {
    j < |t| && t[j].ppid == pid
  }

  lemma ChildDescends(t: Table, pid: nat, path: set<nat>, j: nat)
    requires Descending(t, pid, path) && IsChild(t, pid, j)
    ensures Parent(t, t[j].pid) == Some(pid) && t[j].pid in Pids(t)
    ensures t[j].pid !in path && Descending(t, t[j].pid, path + {t[j].pid})
    ensures |Pids(t) - (path + {t[j].pid})| < |Pids(t) - path|
  {
    var c := t[j].pid;
    assert IndexOf(t, c) == j;
    forall a, k: nat | Up(t, pid, k) == Some(a)
      ensures Up(t, c, k + 1) == Some(a) && a != c
    {
      assert Up(t, c, k + 1) == Up(t, pid, k);
    }
    forall a | a in path + {c}
      ensures Above(t, c, a)
    {
      if a == c {
        assert Up(t, c, 0) == Some(a);
      } else {
        var k: nat :| Up(t, pid, k) == Some(a);
        assert Up(t, c, k + 1) == Some(a);
      }
    }
    assert Pids(t) - (path + {c}) < Pids(t) - path by {
      assert c in Pids(t) - path && c !in Pids(t) - (path + {c});
    }
    SmallerSet(Pids(t) - (path + {c}), Pids(t) - path);
  }

  lemma SmallerSet(a: set<nat>, b: set<nat>)
    requires a < b
    ensures |a| < |b|
  {
    assert b == a + (b - a) && b - a != {};
  }

  /** The process and, in table order, the trees of its children. */
  function Tree(t: Table, pid: nat, level: nat, ghost path: set<nat>): seq<Line>
    requires Descending(t, pid, path)
    decreases |Pids(t) - path|, |t| + 1
  {
    var i := IndexOf(t, pid);
    if i == |t| then [] else [Line(level, pid, t[i].name)] + Forest(t, pid, level, path, 0)
  }

  function Forest(t: Table, pid: nat, level: nat, ghost path: set<nat>, j: nat): seq<Line>
    requires Descending(t, pid, path) && j <= |t|
    decreases |Pids(t) - path|, |t| - j
  {
    if j == |t| then []
    else if t[j].ppid == pid then
      ChildDescends(t, pid, path, j);
      Tree(t, t[j].pid, level + 1, path + {t[j].pid}) + Forest(t, pid, level, path, j + 1)
    else Forest(t, pid, level, path, j + 1)
  }

  // ---------- printing ----------

  function Tabs(level: nat): string {
    if level == 0 then "" else Tabs(level - 1) + "\t\t"
  }

  lemma TabsUnfold(level: nat)
    ensures Tabs(0) == "" && Tabs(level + 1) == Tabs(level) + "\t\t"
  {
  }

  function Render(lines: seq<Line>): string {
    if lines == [] then ""
    else Tabs(lines[0].level) + (Decimal(lines[0].pid) + " [" + lines[0].name + "]\n") + Render(lines[1..])
  }

  lemma {:induction false} TabsAre(level: nat)
    ensures |Tabs(level)| == 2 * level && forall k | 0 <= k < |Tabs(level)| :: Tabs(level)[k] == '\t'
  {
    if level > 0 {
      TabsAre(level - 1);
    }
  }

  /** A printed line as a reader sees it: two tabs for each level, a numeral whose value is the pid, and the name in
      brackets. */
  ghost predicate Reads(text: string, line: Line) {
    exists tabs, numeral :: ReadsAs(text, line, tabs, numeral)
  }

  predicate ReadsAs(text: string, line: Line, tabs: string, numeral: string) {
    && text == tabs + (numeral + " [" + line.name + "]\n")
    && |tabs| == 2 * line.level && (forall k | 0 <= k < |tabs| :: tabs[k] == '\t')
    && numeral != "" && (forall k | 0 <= k < |numeral| :: '0' <= numeral[k] <= '9')
    && (line.pid > 0 ==> numeral[0] != '0')
    && Value(numeral) == line.pid
  }

  /** The text is these lines, one behind the other. */
  ghost predicate ReadsAll(text: string, lines: seq<Line>) {
    exists parts: seq<string> ::
      |parts| == |lines| && text == Flatten(parts) && forall k | 0 <= k < |lines| :: Reads(parts[k], lines[k])
  }

  lemma {:induction false} RenderReads(lines: seq<Line>) returns (parts: seq<string>)
    ensures |parts| == |lines| && Render(lines) == Flatten(parts)
    ensures forall k | 0 <= k < |lines| :: Reads(parts[k], lines[k])
  {
    if lines == [] {
      parts := [];
    } else {
      var line := lines[0];
      var first := Tabs(line.level) + (Decimal(line.pid) + " [" + line.name + "]\n");
      TabsAre(line.level);
      DecimalReads(line.pid);
      assert ReadsAs(first, line, Tabs(line.level), Decimal(line.pid));
      var rest := RenderReads(lines[1..]);
      parts := [first] + rest;
      assert parts[1..] == rest;
    }
  }

  lemma {:induction false} RenderAdd(a: seq<Line>, b: seq<Line>)
    ensures Render(a + b) == Render(a) + Render(b)
  {
    if a == [] {
      assert a + b == b;
    } else {
      assert (a + b)[1..] == a[1..] + b;
      RenderAdd(a[1..], b);
    }
  }

  /** One step of the loop over possible children. */
  lemma RenderForest(t: Table, pid: nat, level: nat, path: set<nat>, j: nat)
    requires Descending(t, pid, path) && j < |t|
    ensures var rest := Forest(t, pid, level, path, j + 1);
            if t[j].ppid == pid then
              && Descending(t, t[j].pid, path + {t[j].pid})
              && Render(Forest(t, pid, level, path, j))
                 == Render(Tree(t, t[j].pid, level + 1, path + {t[j].pid})) + Render(rest)
            else Forest(t, pid, level, path, j) == rest
  {
    ForestUnfolds(t, pid, level, path, j);
    if t[j].ppid == pid {
      hide *;
      RenderAdd(Tree(t, t[j].pid, level + 1, path + {t[j].pid}), Forest(t, pid, level, path, j + 1));
    }
  }

  lemma RenderTree(t: Table, pid: nat, level: nat, path: set<nat>)
    requires Descending(t, pid, path) && pid in Pids(t)
    ensures Render(Tree(t, pid, level, path))
            == Tabs(level) + (Decimal(pid) + " [" + t[IndexOf(t, pid)].name + "]\n") + Render(Forest(t, pid, level, path, 0))
  {
    var head := Line(level, pid, t[IndexOf(t, pid)].name);
    RenderAdd([head], Forest(t, pid, level, path, 0));
    assert [head][1..] == [];
    assert Render([head]) == Tabs(level) + (Decimal(pid) + " [" + head.name + "]\n") + "";
  }

  /** The inner loop: the trees of all children, in table order. */
  method PrintChildren(t: Table, pid: nat, level: nat, ghost path: set<nat>) returns (out: string)
    requires Descending(t, pid, path)
    ensures out == Render(Forest(t, pid, level, path, 0))
    decreases |Pids(t) - path|, 0
  {
    hide Forest, Tree, Render, Descending;
    out := "";
    var j := 0;
    while j < |t|
      invariant 0 <= j <= |t|
      invariant Descending(t, pid, path)
      invariant out + Render(Forest(t, pid, level, path, j)) == Render(Forest(t, pid, level, path, 0))
    {
      RenderForest(t, pid, level, path, j);
      if t[j].ppid == pid {
        ChildDescends(t, pid, path, j);
        var sub := PrintTree(t, t[j].pid, level + 1, path + {t[j].pid});
        out := out + sub;
      }
      j := j + 1;
    }
    assert Render(Forest(t, pid, level, path, |t|)) == "" by {
      NoMoreChildren(t, pid, level, path);
    }
  }

  lemma NoMoreChildren(t: Table, pid: nat, level: nat, path: set<nat>)
    requires Descending(t, pid, path)
    ensures Render(Forest(t, pid, level, path, |t|)) == ""
  {
  }

  /** The indentation is printed first, and it is all that is printed for a pid that is not in the table. */
  method PrintTree(t: Table, pid: nat, level: nat, ghost path: set<nat>) returns (out: string)
    requires Descending(t, pid, path)
    ensures out == if pid in Pids(t) then Render(Tree(t, pid, level, path)) else Tabs(level)
    decreases |Pids(t) - path|, 1
  {
    hide *;
    TabsUnfold(0);
    out := "";
    var i := 0;
    while i < level
      invariant 0 <= i <= level
      invariant out == Tabs(i)
    {
      TabsUnfold(i);
      out := out + "\t\t";
      i := i + 1;
    }
    ghost var own := IndexOf(t, pid);
    if own < |t| {
      RenderTree(t, pid, level, path);
    }
    i := 0;
    while i < |t|
      invariant 0 <= i <= |t|
      invariant Descending(t, pid, path)
      invariant out == if own < i then Render(Tree(t, pid, level, path)) else Tabs(level)
    {
      if t[i].pid == pid {
        OnlyOneEntry(t, pid, path, i);
        out := out + (Decimal(t[i].pid) + " [" + t[i].name + "]\n");
        var subtrees := PrintChildren(t, pid, level, path);
        out := out + subtrees;
      }
      i := i + 1;
    }
  }

  lemma OnlyOneEntry(t: Table, pid: nat, path: set<nat>, i: nat)
    requires Descending(t, pid, path) && i < |t| && t[i].pid == pid
    ensures IndexOf(t, pid) == i
  {
  }

  // ---------- what is printed ----------

  lemma TreeUnfolds(t: Table, pid: nat, level: nat, path: set<nat>)
    requires Descending(t, pid, path)
    ensures pid !in Pids(t) ==> Tree(t, pid, level, path) == []
    ensures pid in Pids(t) ==>
              IndexOf(t, pid) < |t| &&
              Tree(t, pid, level, path)
              == [Line(level, pid, t[IndexOf(t, pid)].name)] + Forest(t, pid, level, path, 0)
  {
  }

  lemma ForestUnfolds(t: Table, pid: nat, level: nat, path: set<nat>, j: nat)
    requires Descending(t, pid, path) && j <= |t|
    ensures if j == |t| then Forest(t, pid, level, path, j) == []
            else if !IsChild(t, pid, j) then Forest(t, pid, level, path, j) == Forest(t, pid, level, path, j + 1)
            else
              && Descending(t, t[j].pid, path + {t[j].pid})
              && Forest(t, pid, level, path, j)
                 == Tree(t, t[j].pid, level + 1, path + {t[j].pid}) + Forest(t, pid, level, path, j + 1)
  {
    if IsChild(t, pid, j) {
      ChildDescends(t, pid, path, j);
    }
  }

  lemma UpOneMore(t: Table, q: nat, d: nat, j: nat, pid: nat)
    requires Distinct(t) && IsChild(t, pid, j) && Up(t, q, d) == Some(t[j].pid)
    ensures Up(t, q, d + 1) == Some(pid)
  {
    assert IndexOf(t, t[j].pid) == j;
    UpAdd(t, q, d, 1);
    assert Up(t, t[j].pid, 1) == Up(t, pid, 0);
  }

  /** Every line shows a descendant of the root, at its distance from the root. */
  lemma {:induction false} TreeSound(t: Table, pid: nat, level: nat, path: set<nat>, line: Line)
    requires Descending(t, pid, path) && line in Tree(t, pid, level, path)
    ensures line.level >= level && Up(t, line.pid, line.level - level) == Some(pid)
    ensures line.pid in Pids(t) && line.name == t[IndexOf(t, line.pid)].name
    decreases |Pids(t) - path|, |t| + 1
  {
    hide Tree, Forest, Descending, Pids, IndexOf;
    TreeUnfolds(t, pid, level, path);
    if line != Line(level, pid, t[IndexOf(t, pid)].name) {
      var i := ForestSound(t, pid, level, path, 0, line);
      DistinctPids(t, pid, path);
      UpOneMore(t, line.pid, line.level - level - 1, i, pid);
    }
  }

  lemma DistinctPids(t: Table, pid: nat, path: set<nat>)
    requires Descending(t, pid, path)
    ensures Distinct(t)
  {
  }

  /** A line of the forest belongs to the tree of one child. */
  lemma {:induction false} ForestSound(t: Table, pid: nat, level: nat, path: set<nat>, j: nat, line: Line)
    returns (i: nat)
    requires Descending(t, pid, path) && j <= |t| && line in Forest(t, pid, level, path, j)
    ensures j <= i && IsChild(t, pid, i)
    ensures line.level > level && Up(t, line.pid, line.level - level - 1) == Some(t[i].pid)
    ensures line.pid in Pids(t) && line.name == t[IndexOf(t, line.pid)].name
    decreases |Pids(t) - path|, |t| - j
  {
    hide *;
    ForestUnfolds(t, pid, level, path, j);
    if IsChild(t, pid, j) && line in Tree(t, t[j].pid, level + 1, path + {t[j].pid}) {
      ChildDescends(t, pid, path, j);
      TreeSound(t, t[j].pid, level + 1, path + {t[j].pid}, line);
      i := j;
    } else {
      i := ForestSound(t, pid, level, path, j + 1, line);
    }
  }

  /** The tree of a child is one contiguous block of its parent's forest. */
  lemma {:induction false} ChildBlock(t: Table, pid: nat, level: nat, path: set<nat>, j: nat, i: nat)
    returns (front: seq<Line>)
    requires Descending(t, pid, path) && j <= i && IsChild(t, pid, i)
    ensures Descending(t, t[i].pid, path + {t[i].pid})
    ensures Forest(t, pid, level, path, j)
            == front + Tree(t, t[i].pid, level + 1, path + {t[i].pid}) + Forest(t, pid, level, path, i + 1)
    decreases i - j
  {
    hide Tree, Forest, Descending;
    ForestUnfolds(t, pid, level, path, i);
    ForestUnfolds(t, pid, level, path, j);
    front := [];
    if j < i {
      var rest := ChildBlock(t, pid, level, path, j + 1, i);
      front := if IsChild(t, pid, j) then Tree(t, t[j].pid, level + 1, path + {t[j].pid}) + rest else rest;
    }
  }

  /** The child of pid through which q descends from it. */
  lemma StepTowards(t: Table, pid: nat, q: nat, k: nat) returns (i: nat)
    requires Distinct(t) && k > 0 && Up(t, q, k) == Some(pid)
    ensures IsChild(t, pid, i) && Up(t, q, k - 1) == Some(t[i].pid)
  {
    UpPrefix(t, q, k - 1, k);
    UpAdd(t, q, k - 1, 1);
    var c := Up(t, q, k - 1).value;
    assert Up(t, c, 1) == Some(pid);
    i := IndexOf(t, c);
  }

  /** Every descendant in the table is shown, at its distance from the root. */
  lemma {:induction false} TreeComplete(t: Table, pid: nat, level: nat, path: set<nat>, q: nat, k: nat)
    requires Descending(t, pid, path) && pid in Pids(t)
    requires q in Pids(t) && Up(t, q, k) == Some(pid)
    ensures Line(level + k, q, t[IndexOf(t, q)].name) in Tree(t, pid, level, path)
    decreases k
  {
    hide *;
    TreeUnfolds(t, pid, level, path);
    if k == 0 {
      UpZero(t, q);
    } else {
      var i := ChildTowards(t, pid, path, q, k);
      var front := ChildBlock(t, pid, level, path, 0, i);
      TreeComplete(t, t[i].pid, level + 1, path + {t[i].pid}, q, k - 1);
    }
  }

  lemma NotBelowOwnChild(t: Table, pid: nat, c: nat, e: nat)
    requires Acyclic(t) && Parent(t, c) == Some(pid)
    ensures Up(t, pid, e) != Some(c)
  {
    assert Up(t, c, e + 1) == Up(t, pid, e);
  }

  /** The subtrees of two children have nothing in common. */
  lemma SubtreesDisjoint(t: Table, pid: nat, i: nat, j: nat, q: nat, di: nat, dj: nat)
    requires Distinct(t) && Acyclic(t) && i != j && IsChild(t, pid, i) && IsChild(t, pid, j)
    requires di <= dj && Up(t, q, di) == Some(t[i].pid)
    ensures Up(t, q, dj) != Some(t[j].pid)
  {
    UpAdd(t, q, di, dj - di);
    assert IndexOf(t, t[i].pid) == i && IndexOf(t, t[j].pid) == j;
    if dj > di {
      NotBelowOwnChild(t, pid, t[j].pid, dj - di - 1);
    }
  }

  ghost predicate NoRepeats(lines: seq<Line>) {
    forall a, b | 0 <= a < b < |lines| :: lines[a].pid != lines[b].pid
  }

  lemma NoRepeatsAdd(a: seq<Line>, b: seq<Line>)
    requires NoRepeats(a) && NoRepeats(b)
    requires forall x, y | x in a && y in b :: x.pid != y.pid
    ensures NoRepeats(a + b)
  {
    forall i, j | 0 <= i < j < |a + b|
      ensures (a + b)[i].pid != (a + b)[j].pid
    {
      if i < |a| <= j {
        assert a[i] in a && b[j - |a|] in b;
      }
    }
  }

  lemma ChildAndRestDisjoint(t: Table, pid: nat, level: nat, path: set<nat>, j: nat, x: Line, y: Line)
    requires Descending(t, pid, path) && IsChild(t, pid, j) && Descending(t, t[j].pid, path + {t[j].pid})
    requires x in Tree(t, t[j].pid, level + 1, path + {t[j].pid}) && y in Forest(t, pid, level, path, j + 1)
    ensures x.pid != y.pid
  {
    hide Tree, Forest, Up, IndexOf, Pids;
    TreeSound(t, t[j].pid, level + 1, path + {t[j].pid}, x);
    var i := ForestSound(t, pid, level, path, j + 1, y);
    var dx, dy := x.level - level - 1, y.level - level - 1;
    if dx <= dy {
      SubtreesDisjoint(t, pid, j, i, x.pid, dx, dy);
    } else {
      SubtreesDisjoint(t, pid, i, j, y.pid, dy, dx);
    }
  }

  /** No process is shown twice. */
  lemma {:induction false} TreeNoRepeats(t: Table, pid: nat, level: nat, path: set<nat>)
    requires Descending(t, pid, path)
    ensures NoRepeats(Tree(t, pid, level, path))
    decreases |Pids(t) - path|, |t| + 1
  {
    TreeUnfolds(t, pid, level, path);
    if pid in Pids(t) {
      ForestNoRepeats(t, pid, level, path, 0);
      forall y | y in Forest(t, pid, level, path, 0)
        ensures y.pid != pid
      {
        var i := ForestSound(t, pid, level, path, 0, y);
        UpOneMore(t, y.pid, y.level - level - 1, i, pid);
      }
      NoRepeatsAdd([Line(level, pid, t[IndexOf(t, pid)].name)], Forest(t, pid, level, path, 0));
    }
  }

  lemma {:induction false} ForestNoRepeats(t: Table, pid: nat, level: nat, path: set<nat>, j: nat)
    requires Descending(t, pid, path) && j <= |t|
    ensures NoRepeats(Forest(t, pid, level, path, j))
    decreases |Pids(t) - path|, |t| - j
  {
    hide Tree, Forest, Descending, Pids;
    ForestUnfolds(t, pid, level, path, j);
    if j < |t| {
      ForestNoRepeats(t, pid, level, path, j + 1);
      if IsChild(t, pid, j) {
        ChildDescends(t, pid, path, j);
        var block := Tree(t, t[j].pid, level + 1, path + {t[j].pid});
        TreeNoRepeats(t, t[j].pid, level + 1, path + {t[j].pid});
        forall x, y | x in block && y in Forest(t, pid, level, path, j + 1)
          ensures x.pid != y.pid
        {
          ChildAndRestDisjoint(t, pid, level, path, j, x, y);
        }
        NoRepeatsAdd(block, Forest(t, pid, level, path, j + 1));
      }
    }
  }

  // ---------- in which order ----------

  ghost predicate Before(lines: seq<Line>, p: nat, q: nat) {
    exists i, j :: ShownAt(lines, i, p) && ShownAt(lines, j, q) && i < j
  }

  predicate ShownAt(lines: seq<Line>, i: int, p: nat) {
    0 <= i < |lines| && lines[i].pid == p
  }

  lemma BeforeInBlock(front: seq<Line>, block: seq<Line>, back: seq<Line>, p: nat, q: nat)
    requires Before(block, p, q)
    ensures Before(front + block + back, p, q)
  {
    var i, j :| ShownAt(block, i, p) && ShownAt(block, j, q) && i < j;
    assert ShownAt(front + block + back, |front| + i, p) && ShownAt(front + block + back, |front| + j, q);
  }

  lemma BeforeAcross(front: seq<Line>, a: seq<Line>, b: seq<Line>, p: Line, q: Line)
    requires p in a && q in b
    ensures Before(front + a + b, p.pid, q.pid)
  {
    var i :| 0 <= i < |a| && a[i] == p;
    var j :| 0 <= j < |b| && b[j] == q;
    assert ShownAt(front + a + b, |front| + i, p.pid) && ShownAt(front + a + b, |front| + |a| + j, q.pid);
  }

  lemma BeforeInTree(t: Table, pid: nat, level: nat, path: set<nat>, i: nat, p: nat, q: nat)
    requires Descending(t, pid, path) && pid in Pids(t) && IsChild(t, pid, i)
    requires Descending(t, t[i].pid, path + {t[i].pid})
    requires Before(Tree(t, t[i].pid, level + 1, path + {t[i].pid}), p, q)
    ensures Before(Tree(t, pid, level, path), p, q)
  {
    var head := [Line(level, pid, t[IndexOf(t, pid)].name)];
    var block := Tree(t, t[i].pid, level + 1, path + {t[i].pid});
    var back := Forest(t, pid, level, path, i + 1);
    var front := ChildBlock(t, pid, level, path, 0, i);
    BeforeInBlock(head + front, block, back, p, q);
    assert head + (front + block + back) == head + front + block + back;
  }

  lemma UpZero(t: Table, q: nat)
    ensures Up(t, q, 0) == Some(q)
  {
  }

  lemma ChildTowards(t: Table, pid: nat, path: set<nat>, q: nat, k: nat) returns (i: nat)
    requires Descending(t, pid, path) && k > 0 && Up(t, q, k) == Some(pid)
    ensures IsChild(t, pid, i) && i < |t| && Up(t, q, k - 1) == Some(t[i].pid)
    ensures t[i].pid in Pids(t) && Descending(t, t[i].pid, path + {t[i].pid})
  {
    i := StepTowards(t, pid, q, k);
    ChildDescends(t, pid, path, i);
  }

  /** A process is shown before its proper descendants. */
  lemma RootFirst(t: Table, pid: nat, level: nat, path: set<nat>, q: nat, k: nat)
    requires Descending(t, pid, path) && pid in Pids(t) && q in Pids(t)
    requires k > 0 && Up(t, q, k) == Some(pid)
    ensures Before(Tree(t, pid, level, path), pid, q)
  {
    assert q != pid;
    TreeComplete(t, pid, level, path, q, k);
    hide Tree, Forest, Descending, Up, Pids;
    TreeUnfolds(t, pid, level, path);
    var head := Line(level, pid, t[IndexOf(t, pid)].name);
    var line := Line(level + k, q, t[IndexOf(t, q)].name);
    BeforeAcross([], [head], Forest(t, pid, level, path, 0), head, line);
    assert [] + [head] + Forest(t, pid, level, path, 0) == Tree(t, pid, level, path);
  }

  /** Of two children of the root, the one that comes first in the table is shown first, with its whole subtree. */
  lemma SiblingBlocks(t: Table, pid: nat, level: nat, path: set<nat>,
                      i: nat, x: nat, kx: nat, j: nat, y: nat, ky: nat)
    requires Descending(t, pid, path) && pid in Pids(t) && x in Pids(t) && y in Pids(t)
    requires i < j && IsChild(t, pid, i) && IsChild(t, pid, j)
    requires Up(t, x, kx) == Some(t[i].pid) && Up(t, y, ky) == Some(t[j].pid)
    ensures Before(Tree(t, pid, level, path), x, y)
  {
    hide Tree, Forest, Descending, Up, IndexOf, Before;
    ChildDescends(t, pid, path, i);
    ChildDescends(t, pid, path, j);
    TreeComplete(t, t[i].pid, level + 1, path + {t[i].pid}, x, kx);
    TreeComplete(t, t[j].pid, level + 1, path + {t[j].pid}, y, ky);
    hide Pids;
    var front := ChildBlock(t, pid, level, path, 0, i);
    var between := ChildBlock(t, pid, level, path, i + 1, j);
    TreeUnfolds(t, pid, level, path);
    var head := [Line(level, pid, t[IndexOf(t, pid)].name)];
    var block, back := Tree(t, t[i].pid, level + 1, path + {t[i].pid}), Forest(t, pid, level, path, i + 1);
    BeforeAcross(head + front, block, back,
                 Line(level + 1 + kx, x, t[IndexOf(t, x)].name), Line(level + 1 + ky, y, t[IndexOf(t, y)].name));
    assert head + (front + block + back) == head + front + block + back;
  }

  ghost predicate BranchAt(t: Table, i: nat, j: nat, q: nat, r: nat) {
    i < j < |t| && t[i].ppid == t[j].ppid >= 0 && Above(t, q, t[i].pid) && Above(t, r, t[j].pid)
  }

  /** Preorder by table order: q is a proper ancestor of r, or the two belong to different children of one process
      and the child of q comes first in the table. */
  ghost predicate Precedes(t: Table, q: nat, r: nat) {
    (q != r && Above(t, r, q)) || exists i: nat, j: nat :: BranchAt(t, i, j, q, r)
  }

  ghost predicate Shown(t: Table, lines: seq<Line>, q: nat, r: nat) {
    Precedes(t, q, r) && Before(lines, q, r)
  }

  lemma BranchesOrdered(t: Table, pid: nat, level: nat, path: set<nat>,
                        i: nat, x: nat, kx: nat, j: nat, y: nat, ky: nat)
    requires Descending(t, pid, path) && pid in Pids(t) && x in Pids(t) && y in Pids(t)
    requires i < j && IsChild(t, pid, i) && IsChild(t, pid, j)
    requires Up(t, x, kx) == Some(t[i].pid) && Up(t, y, ky) == Some(t[j].pid)
    ensures Shown(t, Tree(t, pid, level, path), x, y)
  {
    SiblingBlocks(t, pid, level, path, i, x, kx, j, y, ky);
    hide Tree, Forest, Before, Descending, Pids, Up;
    assert Above(t, x, t[i].pid) && Above(t, y, t[j].pid);
    assert BranchAt(t, i, j, x, y);
  }

  lemma RootOrdered(t: Table, pid: nat, level: nat, path: set<nat>, q: nat, k: nat)
    requires Descending(t, pid, path) && pid in Pids(t) && q in Pids(t) && q != pid && Up(t, q, k) == Some(pid)
    ensures Shown(t, Tree(t, pid, level, path), pid, q)
  {
    UpZero(t, q);
    RootFirst(t, pid, level, path, q, k);
    hide Tree, Forest, Before, Descending, Pids, Up;
    assert Above(t, q, pid);
  }

  /** Any two processes of the tree are ordered, and they are shown in that order. */
  lemma {:induction false} AnyTwoOrdered(t: Table, pid: nat, level: nat, path: set<nat>,
                                         q: nat, k: nat, r: nat, l: nat)
    requires Descending(t, pid, path) && pid in Pids(t) && q in Pids(t) && r in Pids(t) && q != r
    requires Up(t, q, k) == Some(pid) && Up(t, r, l) == Some(pid)
    ensures Shown(t, Tree(t, pid, level, path), q, r) || Shown(t, Tree(t, pid, level, path), r, q)
    decreases k
  {
    UpZero(t, q);
    UpZero(t, r);
    hide *;
    if k == 0 {
      RootOrdered(t, pid, level, path, r, l);
    } else if l == 0 {
      RootOrdered(t, pid, level, path, q, k);
    } else {
      var i := ChildTowards(t, pid, path, q, k);
      var j := ChildTowards(t, pid, path, r, l);
      if i == j {
        AnyTwoOrdered(t, t[i].pid, level + 1, path + {t[i].pid}, q, k - 1, r, l - 1);
        ShownInTree(t, pid, level, path, i, q, r);
        ShownInTree(t, pid, level, path, i, r, q);
      } else if i < j {
        BranchesOrdered(t, pid, level, path, i, q, k - 1, j, r, l - 1);
      } else {
        BranchesOrdered(t, pid, level, path, j, r, l - 1, i, q, k - 1);
      }
    }
  }

  lemma ShownInTree(t: Table, pid: nat, level: nat, path: set<nat>, i: nat, q: nat, r: nat)
    requires Descending(t, pid, path) && pid in Pids(t) && IsChild(t, pid, i)
    requires Descending(t, t[i].pid, path + {t[i].pid})
    ensures Shown(t, Tree(t, t[i].pid, level + 1, path + {t[i].pid}), q, r)
            ==> Shown(t, Tree(t, pid, level, path), q, r)
  {
    hide Tree, Forest, Before, Descending, Pids, Precedes;
    if Shown(t, Tree(t, t[i].pid, level + 1, path + {t[i].pid}), q, r) {
      BeforeInTree(t, pid, level, path, i, q, r);
    }
  }

  lemma NotBothWays(lines: seq<Line>, a: nat, b: nat)
    requires NoRepeats(lines) && a < b < |lines|
    ensures !Before(lines, lines[b].pid, lines[a].pid) && lines[a].pid != lines[b].pid
  {
  }

  ghost predicate InPreorder(t: Table, lines: seq<Line>) {
    forall a, b | 0 <= a < b < |lines| :: Precedes(t, lines[a].pid, lines[b].pid)
  }

  /** The lines of a tree stand in preorder by table order. */
  lemma TreeInPreorder(t: Table, pid: nat, level: nat, path: set<nat>)
    requires Descending(t, pid, path) && pid in Pids(t)
    ensures InPreorder(t, Tree(t, pid, level, path))
  {
    hide Tree, Forest, Descending, Pids, Precedes, NoRepeats;
    var lines := Tree(t, pid, level, path);
    TreeNoRepeats(t, pid, level, path);
    forall a, b | 0 <= a < b < |lines|
      ensures Precedes(t, lines[a].pid, lines[b].pid)
    {
      PairInPreorder(t, pid, level, path, a, b);
    }
  }

  lemma PairInPreorder(t: Table, pid: nat, level: nat, path: set<nat>, a: nat, b: nat)
    requires Descending(t, pid, path) && pid in Pids(t)
    requires NoRepeats(Tree(t, pid, level, path)) && a < b < |Tree(t, pid, level, path)|
    ensures var lines := Tree(t, pid, level, path);
            Precedes(t, lines[a].pid, lines[b].pid)
  {
    hide *;
    var lines := Tree(t, pid, level, path);
    NotBothWays(lines, a, b);
    var x, y := lines[a], lines[b];
    TreeSound(t, pid, level, path, x);
    TreeSound(t, pid, level, path, y);
    AnyTwoOrdered(t, pid, level, path, x.pid, x.level - level, y.pid, y.level - level);
    ShownMeans(t, lines, x.pid, y.pid);
    ShownMeans(t, lines, y.pid, x.pid);
  }

  lemma ShownMeans(t: Table, lines: seq<Line>, q: nat, r: nat)
    ensures Shown(t, lines, q, r) <==> Precedes(t, q, r) && Before(lines, q, r)
  {
  }

  lemma RenderReadsAll(lines: seq<Line>)
    ensures ReadsAll(Render(lines), lines)
  {
    var parts := RenderReads(lines);
  }

  // ---------- the program ----------

  lemma RootDescends(t: Table, root: nat)
    requires Distinct(t) && Acyclic(t)
    ensures Descending(t, root, {root})
  {
    assert Up(t, root, 0) == Some(root);
  }

  const INIT: nat := 1

  /** One line for every descendant of the root, itself included, at its distance from the root; no others, none
      twice, and all in preorder. */
  ghost predicate Lists(t: Table, root: nat, lines: seq<Line>) {
    && NoRepeats(lines) && InPreorder(t, lines)
    && (forall q: nat, k: nat | q in Pids(t) && Up(t, q, k) == Some(root) ::
          Line(k, q, t[IndexOf(t, q)].name) in lines)
    && forall line | line in lines ::
         && line.pid in Pids(t) && line.name == t[IndexOf(t, line.pid)].name
         && Up(t, line.pid, line.level) == Some(root)
  }

  lemma TreeLists(t: Table, root: nat)
    requires Distinct(t) && Acyclic(t) && root in Pids(t)
    ensures Descending(t, root, {root}) && Lists(t, root, Tree(t, root, 0, {root}))
  {
    hide *;
    RootDescends(t, root);
    var lines := Tree(t, root, 0, {root});
    TreeNoRepeats(t, root, 0, {root});
    TreeInPreorder(t, root, 0, {root});
    forall q: nat, k: nat | q in Pids(t) && Up(t, q, k) == Some(root)
      ensures Line(k, q, t[IndexOf(t, q)].name) in lines
    {
      TreeComplete(t, root, 0, {root}, q, k);
    }
    forall line | line in lines
      ensures Up(t, line.pid, line.level) == Some(root)
      ensures line.pid in Pids(t) && line.name == t[IndexOf(t, line.pid)].name
    {
      TreeSound(t, root, 0, {root}, line);
    }
    ListsIf(t, root, lines);
  }

  lemma ListsIf(t: Table, root: nat, lines: seq<Line>)
    requires NoRepeats(lines) && InPreorder(t, lines)
    requires forall q: nat, k: nat | q in Pids(t) && Up(t, q, k) == Some(root) ::
               Line(k, q, t[IndexOf(t, q)].name) in lines
    requires forall line | line in lines ::
               && line.pid in Pids(t) && line.name == t[IndexOf(t, line.pid)].name
               && Up(t, line.pid, line.level) == Some(root)
    ensures Lists(t, root, lines)
  {
  }

  // ---------- the list is unique ----------

  lemma AboveTransitive(t: Table, q: nat, d: nat, m: nat, e: nat, a: nat)
    requires Up(t, q, d) == Some(m) && Up(t, m, e) == Some(a)
    ensures Up(t, q, d + e) == Some(a)
  {
    UpAdd(t, q, d, e);
  }

  /** No process descends from two children of one process. */
  lemma OneBranch(t: Table, i: nat, j: nat, q: nat)
    requires Distinct(t) && Acyclic(t) && i < |t| && j < |t| && t[i].ppid == t[j].ppid >= 0
    requires Above(t, q, t[i].pid) && Above(t, q, t[j].pid)
    ensures i == j
  {
    var di: nat :| Up(t, q, di) == Some(t[i].pid);
    var dj: nat :| Up(t, q, dj) == Some(t[j].pid);
    if i != j {
      if di <= dj {
        SubtreesDisjoint(t, t[i].ppid, i, j, q, di, dj);
      } else {
        SubtreesDisjoint(t, t[i].ppid, j, i, q, dj, di);
      }
    }
  }

  lemma AboveAbove(t: Table, q: nat, m: nat, a: nat)
    requires Above(t, q, m) && Above(t, m, a)
    ensures Above(t, q, a)
  {
    var d: nat :| Up(t, q, d) == Some(m);
    var e: nat :| Up(t, m, e) == Some(a);
    AboveTransitive(t, q, d, m, e, a);
  }

  lemma NotAboveEachOther(t: Table, q: nat, r: nat)
    requires Acyclic(t) && Above(t, q, r) && Above(t, r, q)
    ensures q == r
  {
    var d: nat :| Up(t, q, d) == Some(r);
    var e: nat :| Up(t, r, e) == Some(q);
    AboveTransitive(t, q, d, r, e, q);
    assert Up(t, q, 0) == Some(q);
  }

  /** Of two ancestors of one process, one is at or above a child of the other, or they are the same. */
  lemma AncestorsComparable(t: Table, q: nat, c: nat, d: nat, c': nat, d': nat)
    requires Up(t, q, d) == Some(c) && Up(t, q, d') == Some(c') && d < d'
    ensures Parent(t, c).Some? && Above(t, Parent(t, c).value, c')
  {
    UpAdd(t, q, d, d' - d);
    assert Up(t, c, d' - d) == Some(c');
    assert Up(t, Parent(t, c).value, d' - d - 1) == Some(c');
  }

  /** Two branches of q, at different heights: r, which shares the lower fork, lies in the higher branch as well. */
  lemma SharesHigherBranch(t: Table, i: nat, j: nat, q: nat, r: nat, d: nat, c': nat, d': nat)
    requires Distinct(t) && i < |t| && j < |t| && t[i].ppid == t[j].ppid >= 0
    requires Up(t, q, d) == Some(t[i].pid) && Up(t, q, d') == Some(c') && d < d'
    requires Above(t, r, t[j].pid)
    ensures Above(t, r, c')
  {
    AncestorsComparable(t, q, t[i].pid, d, c', d');
    assert IndexOf(t, t[i].pid) == i && IndexOf(t, t[j].pid) == j;
    var v: nat := t[i].ppid;
    assert Up(t, t[j].pid, 1) == Up(t, v, 0);
    assert Above(t, t[j].pid, v);
    AboveAbove(t, r, t[j].pid, v);
    AboveAbove(t, r, v, c');
  }

  lemma ForksAgree(t: Table, i: nat, j: nat, i': nat, j': nat, q: nat, r: nat)
    requires Distinct(t) && Acyclic(t) && BranchAt(t, i, j, q, r)
    ensures !BranchAt(t, i', j', r, q)
  {
    if BranchAt(t, i', j', r, q) {
      var d: nat :| Up(t, q, d) == Some(t[i].pid);
      var d': nat :| Up(t, q, d') == Some(t[j'].pid);
      if d == d' {
        OneBranch(t, j, i', r);
      } else if d < d' {
        SharesHigherBranch(t, i, j, q, r, d, t[j'].pid, d');
        OneBranch(t, i', j', r);
      } else {
        SharesHigherBranch(t, j', i', q, r, d', t[i].pid, d);
        OneBranch(t, i, j, r);
      }
    }
  }

  lemma BranchesUnrelated(t: Table, i: nat, j: nat, q: nat, r: nat)
    requires Distinct(t) && Acyclic(t) && BranchAt(t, i, j, q, r)
    ensures !Above(t, r, q) && !Above(t, q, r)
  {
    if Above(t, r, q) {
      AboveAbove(t, r, q, t[i].pid);
      OneBranch(t, i, j, r);
    }
    if Above(t, q, r) {
      AboveAbove(t, q, r, t[j].pid);
      OneBranch(t, i, j, q);
    }
  }

  /** The order is strict. */
  lemma PrecedesOneWay(t: Table, q: nat, r: nat)
    requires Distinct(t) && Acyclic(t) && Precedes(t, q, r)
    ensures !Precedes(t, r, q)
  {
    hide Above, Up, BranchAt, Distinct, Acyclic;
    if q != r && Above(t, r, q) {
      if Above(t, q, r) {
        NotAboveEachOther(t, q, r);
      }
      forall i: nat, j: nat
        ensures !BranchAt(t, i, j, r, q)
      {
        if BranchAt(t, i, j, r, q) {
          BranchesUnrelated(t, i, j, r, q);
        }
      }
    } else {
      var i: nat, j: nat :| BranchAt(t, i, j, q, r);
      BranchesUnrelated(t, i, j, q, r);
      forall i': nat, j': nat
        ensures !BranchAt(t, i', j', r, q)
      {
        ForksAgree(t, i, j, i', j', q, r);
      }
    }
  }

  ghost predicate SameLines(a: seq<Line>, b: seq<Line>) {
    forall line :: line in a <==> line in b
  }

  lemma SameFirst(t: Table, a: seq<Line>, b: seq<Line>)
    requires Distinct(t) && Acyclic(t) && InPreorder(t, a) && InPreorder(t, b) && SameLines(a, b)
    requires a != []
    ensures b != [] && a[0] == b[0]
  {
    hide Precedes;
    assert a[0] in b;
    var m :| 0 <= m < |b| && b[m] == a[0];
    assert b[0] in a;
    var n :| 0 <= n < |a| && a[n] == b[0];
    if m > 0 && n > 0 {
      PrecedesOneWay(t, a[0].pid, a[n].pid);
    }
  }

  lemma TailsAgree(a: seq<Line>, b: seq<Line>)
    requires NoRepeats(a) && NoRepeats(b) && SameLines(a, b) && a != [] && b != [] && a[0] == b[0]
    ensures NoRepeats(a[1..]) && NoRepeats(b[1..]) && SameLines(a[1..], b[1..])
  {
    assert a == [a[0]] + a[1..] && b == [b[0]] + b[1..];
    forall line
      ensures line in a[1..] <==> line in b[1..]
    {
      assert line in a[1..] <==> line in a && line != a[0];
      assert line in b[1..] <==> line in b && line != b[0];
    }
  }

  lemma {:induction false} SameList(t: Table, a: seq<Line>, b: seq<Line>)
    requires Distinct(t) && Acyclic(t) && InPreorder(t, a) && InPreorder(t, b)
    requires NoRepeats(a) && NoRepeats(b) && SameLines(a, b)
    ensures a == b
  {
    if a == [] {
      if b != [] {
        SameFirst(t, b, a);
      }
    } else {
      SameFirst(t, a, b);
      TailsAgree(a, b);
      hide Precedes;
      SameList(t, a[1..], b[1..]);
      assert a == [a[0]] + a[1..] && b == [b[0]] + b[1..];
    }
  }

  lemma ListsAreComplete(t: Table, root: nat, a: seq<Line>, b: seq<Line>, line: Line)
    requires Lists(t, root, a) && Lists(t, root, b) && line in a
    ensures line in b
  {
    hide InPreorder, NoRepeats, Up, IndexOf;
    assert Up(t, line.pid, line.level) == Some(root) && line.name == t[IndexOf(t, line.pid)].name;
    assert Line(line.level, line.pid, t[IndexOf(t, line.pid)].name) in b;
  }

  /** There is only one such list. */
  lemma OnlyOneList(t: Table, root: nat, a: seq<Line>, b: seq<Line>)
    requires Distinct(t) && Acyclic(t) && Lists(t, root, a) && Lists(t, root, b)
    ensures a == b
  {
    forall line
      ensures line in a <==> line in b
    {
      if line in a {
        ListsAreComplete(t, root, a, b, line);
      }
      if line in b {
        ListsAreComplete(t, root, b, a, line);
      }
    }
    SameList(t, a, b);
  }

  /** For a table with distinct pids and no cycle of parents, what is printed for pid 1 is that list, or nothing if
      pid 1 is not in the table. */
  method PrintProcesses(t: Table) returns (out: string)
    requires Distinct(t) && Acyclic(t)
    ensures 1 in Pids(t) ==> exists lines :: Lists(t, 1, lines)
    ensures 1 in Pids(t) ==> forall lines | Lists(t, 1, lines) :: out == Render(lines) && ReadsAll(out, lines)
    ensures 1 !in Pids(t) ==> out == ""
  {
    TabsUnfold(0);
    hide *;
    RootDescends(t, INIT);
    out := PrintTree(t, INIT, 0, {INIT});
    if INIT in Pids(t) {
      TreeLists(t, INIT);
      ghost var shown := Tree(t, INIT, 0, {INIT});
      assert Lists(t, INIT, shown) && out == Render(shown);
      RenderReadsAll(shown);
      forall lines | Lists(t, INIT, lines)
        ensures lines == shown
      {
        OnlyOneList(t, INIT, lines, shown);
      }
    }
  }
}
