/**
 * The list and the line printer of the tree utility (tree/main.go). The
 * directory walk fills a singly linked List of DirParams; printList then
 * walks the list once, keeping a stack of prefix symbols, and writes one line
 * per node. os.DirEntry is reduced to the three facts printList uses, and the
 * io.Writer to the sequence of lines it accepted plus the index of the first
 * write that fails, if any.
 */
module Tree {
  import opened Wrappers
  import Decimal

  /** os.DirEntry, with the size its Info() would report. */
  datatype DirEntry = DirEntry(name: string, isDir: bool, size: int)

  datatype DirParams = DirParams(dir: DirEntry, isLastDir: bool, isLastFile: bool, layerNumber: int)

  // ---------------------------------------------------------------------------
  // The linked list

  /** The list with the first element equal to x taken out. */
  function RemoveFirst<T(==)>(s: seq<T>, x: T): seq<T> {
    if s == [] then []
    else if s[0] == x then s[1..]
    else [s[0]] + RemoveFirst(s[1..], x)
  }

  /** Without x, nothing is removed. */
  lemma {:induction false} RemoveFirstAbsent<T>(s: seq<T>, x: T)
    requires x !in s
    ensures RemoveFirst(s, x) == s
  {
    if s != [] {
      RemoveFirstAbsent(s[1..], x);
      assert s == [s[0]] + s[1..];
    }
  }

  /** When s[k] is the first x, exactly s[k] is removed and the rest keep their order. */
  lemma {:induction false} RemoveFirstAt<T>(s: seq<T>, x: T, k: nat)
    requires k < |s| && s[k] == x
    requires forall j :: 0 <= j < k ==> s[j] != x
    ensures RemoveFirst(s, x) == s[..k] + s[k + 1..]
  {
    if k > 0 {
      RemoveFirstAt(s[1..], x, k - 1);
      assert s[..k] == [s[0]] + s[1..][..k - 1];
      assert s[k + 1..] == s[1..][k..];
    }
  }

  /** Exactly one occurrence of x goes, if there is one. */
  lemma {:induction false} RemoveFirstMultiset<T>(s: seq<T>, x: T)
    ensures multiset(RemoveFirst(s, x)) == multiset(s) - multiset{x}
  {
    if s != [] {
      assert s == [s[0]] + s[1..];
      assert multiset(s) == multiset{s[0]} + multiset(s[1..]);
      if s[0] != x {
        RemoveFirstMultiset(s[1..], x);
        assert RemoveFirst(s, x) == [s[0]] + RemoveFirst(s[1..], x);
      }
    }
  }

  /** Appending a value the list lacks and then removing it restores the list. */
  lemma {:induction false} RemoveFirstAppended<T>(s: seq<T>, x: T)
    requires x !in s
    ensures RemoveFirst(s + [x], x) == s
  {
    if s == [] {
      assert [x][1..] == [];
    } else {
      RemoveFirstAppended(s[1..], x);
      assert (s + [x])[1..] == s[1..] + [x];
      assert s == [s[0]] + s[1..];
    }
  }

  class Node {
    var data: DirParams
    var next: Node?

    constructor (data: DirParams)
      ensures this.data == data && next == null
    {
      this.data := data;
      next := null;
    }
  }

  /**
   * A singly linked list. The ghost sequence nodes lists the nodes from the
   * head, each pointing at the following one and the last at nothing; Contents
   * holds their data.
   */
  class List {
    var head: Node?
    ghost var nodes: seq<Node>
    ghost var Contents: seq<DirParams>
    ghost var Repr: set<object>

    ghost predicate Valid()
      reads this, Repr
    {
      this in Repr &&
      (forall i :: 0 <= i < |nodes| ==> nodes[i] in Repr) &&
      |Contents| == |nodes| &&
      head == (if nodes == [] then null else nodes[0]) &&
      (forall i :: 0 <= i < |nodes| ==> nodes[i].data == Contents[i]) &&
      (forall i {:trigger nodes[i].next} :: 0 <= i < |nodes| - 1 ==> nodes[i].next == nodes[i + 1]) &&
      (nodes != [] ==> nodes[|nodes| - 1].next == null) &&
      (forall i, j :: 0 <= i < j < |nodes| ==> nodes[i] != nodes[j])
    }

    /** The zero List of Go: no head. */
    constructor ()
      ensures Valid() && fresh(Repr)
      ensures Contents == []
    {
      head := null;
      nodes := [];
      Contents := [];
      Repr := {this};
    }

    /** Only the last node has no successor. */
    lemma NullNextIsLast(i: nat)
      requires Valid() && i < |nodes|
      ensures nodes[i].next == null ==> i == |nodes| - 1
    {
      if i < |nodes| - 1 {
        assert nodes[i].next == nodes[i + 1];
      }
    }

    /** The nodes from the head: each holds its element and points at the next. */
    lemma Chain()
      requires Valid()
      ensures head == if nodes == [] then null else nodes[0]
      ensures forall i {:trigger nodes[i].data} {:trigger nodes[i].next} :: 0 <= i < |nodes| ==>
                nodes[i].data == Contents[i] && nodes[i].next == if i + 1 < |nodes| then nodes[i + 1] else null
    {
      forall i | 0 <= i < |nodes|
        ensures nodes[i].next == if i + 1 < |nodes| then nodes[i + 1] else null
      {
        NullNextIsLast(i);
      }
    }

    /** add: a new node at the tail; on an empty list it becomes the head. */
    method Add(value: DirParams)
      requires Valid()
      modifies Repr
      ensures Valid() && fresh(Repr - old(Repr))
      ensures Contents == old(Contents) + [value]
      ensures nodes[..|old(nodes)|] == old(nodes)
    {
      var newNode := new Node(value);
      if head == null {
        head := newNode;
        nodes := [newNode];
        Contents := [value];
        Repr := Repr + {newNode};
        return;
      }
      var curr := head;
      ghost var i := 0;
      while curr.next != null
        invariant Valid()
        invariant 0 <= i < |nodes| && curr == nodes[i]
        decreases |nodes| - i
      {
        curr := curr.next;
        i := i + 1;
      }
      NullNextIsLast(i);
      curr.next := newNode;
      nodes := nodes + [newNode];
      Contents := Contents + [value];
      Repr := Repr + {newNode};
    }

    /** curr.next = curr.next.next: the node after nodes[i] leaves the list. */
    method UnlinkAfter(curr: Node, ghost i: nat)
      requires Valid() && i + 1 < |nodes| && curr == nodes[i]
      modifies Repr
      ensures Valid() && Repr == old(Repr)
      ensures nodes == old(nodes[..i + 1] + nodes[i + 2..])
      ensures Contents == old(Contents[..i + 1] + Contents[i + 2..])
    {
      ghost var was := nodes;
      assert curr.next == was[i + 1];
      curr.next := curr.next.next;
      nodes := nodes[..i + 1] + nodes[i + 2..];
      Contents := Contents[..i + 1] + Contents[i + 2..];
      forall j | 0 <= j < |nodes| - 1
        ensures nodes[j].next == nodes[j + 1]
      {
        if j < i {
          assert was[j] != was[i];
          assert old(was[j].next) == was[j + 1];
        } else if j > i {
          assert was[j + 1] != was[i];
          assert old(was[j + 1].next) == was[j + 2];
        } else {
          assert old(was[i + 1].next) == was[i + 2];
        }
      }
      if i + 2 < |was| {
        assert was[|was| - 1] != was[i];
        assert old(was[|was| - 1].next) == null;
      } else {
        assert old(was[i + 1].next) == null;
      }
      forall j, k | 0 <= j < k < |nodes|
        ensures nodes[j] != nodes[k]
      {
        var j' := if j <= i then j else j + 1;
        var k' := if k <= i then k else k + 1;
        assert was[j'] != was[k'];
      }
    }

    /** remove: unlinks the first node whose data equals value, if there is one. */
    method Remove(value: DirParams)
      requires Valid()
      modifies Repr
      ensures Valid() && Repr == old(Repr)
      ensures Contents == RemoveFirst(old(Contents), value)
    {
      if head == null {
        return;
      }
      if head.data == value {
        head := head.next;
        nodes := nodes[1..];
        Contents := Contents[1..];
        return;
      }
      var curr := head;
      ghost var i := 0;
      while curr.next != null && curr.next.data != value
        invariant Valid()
        invariant 0 <= i < |nodes| && curr == nodes[i]
        invariant forall j :: 0 <= j <= i ==> Contents[j] != value
        decreases |nodes| - i
      {
        curr := curr.next;
        i := i + 1;
      }
      NullNextIsLast(i);
      if curr.next != null {
        RemoveFirstAt(Contents, value, i + 1);
        UnlinkAfter(curr, i);
      } else {
        assert value !in Contents;
        RemoveFirstAbsent(Contents, value);
      }
    }
  }

  // ---------------------------------------------------------------------------
  // printList

  const Tab := "\t"
  const LastFile := "└───"
  const FileConnector := "├───"
  const UpperSeparator := "│"

  /** The name as printed: a file is followed by its size in bytes, or by " (empty)". */
  function DisplayName(e: DirEntry): string {
    if e.isDir then e.name
    else if e.size == 0 then e.name + " (empty)"
    else e.name + " (" + Decimal.Itoa(e.size) + "b)"
  }

  /**
   * A directory's name is printed as it is. A file's name is followed by a
   * suffix: " (empty)" for zero bytes, otherwise " (", the size in decimal
   * and "b)", from which the size can be read back.
   */
  lemma DisplayNameMeaning(e: DirEntry)
    ensures var r := DisplayName(e);
            e.name <= r &&
            (r == e.name <==> e.isDir) &&
            (!e.isDir && e.size == 0 ==> r[|e.name|..] == " (empty)")
    ensures var r := DisplayName(e);
            var suffix := r[|e.name|..];
            !e.isDir && e.size != 0 ==>
              |suffix| >= 4 && suffix[..2] == " (" && suffix[|suffix| - 2..] == "b)" &&
              Decimal.IsDecimalText(suffix[2..|suffix| - 2]) &&
              Decimal.ParseInt(suffix[2..|suffix| - 2]) == e.size
  {
    var r := DisplayName(e);
    if !e.isDir && e.size != 0 {
      var t := Decimal.Itoa(e.size);
      assert r == e.name + (" (" + t + "b)");
      var suffix := r[|e.name|..];
      assert suffix == " (" + t + "b)";
      assert suffix[2..|suffix| - 2] == t;
      Decimal.ParseItoa(e.size);
    } else if !e.isDir {
      assert r == e.name + " (empty)";
    }
  }

  /** "└───" for the last directory or file of a level, "├───" before the others. */
  function Connector(p: DirParams): string {
    if p.isLastDir || p.isLastFile then LastFile else FileConnector
  }

  /** The strings one after another. */
  function Concat(ss: seq<string>): string {
    if ss == [] then "" else Concat(ss[..|ss| - 1]) + ss[|ss| - 1]
  }

  /** printList's loop state: symbolsArray, curLayer and isLastDir. */
  datatype Printer = Printer(symbols: seq<string>, curLayer: int, isLastDir: bool)

  /** The layer of the node before position k, 0 before the first. */
  function LayerBefore(ps: seq<DirParams>, k: nat): int
    requires k <= |ps|
  {
    if k == 0 then 0 else ps[k - 1].layerNumber
  }

  /**
   * The lists the directory walk builds: no layer is negative, and from one
   * node to the next (and from 0 to the first) the layer rises by at most one.
   */
  predicate Layered(ps: seq<DirParams>) {
    forall k {:trigger LayerBefore(ps, k)} :: 0 <= k < |ps| ==> 0 <= ps[k].layerNumber <= LayerBefore(ps, k) + 1
  }

  /**
   * One node's update of the loop state: one symbol pushed when the layer
   * rises, "│\t" unless the previous node was a last directory; the stack cut
   * back to the new layer when it falls.
   */
  function Step(st: Printer, p: DirParams): Printer
    requires p.layerNumber < st.curLayer ==> 0 <= p.layerNumber <= |st.symbols|
  {
    var symbols :=
      if p.layerNumber > st.curLayer then st.symbols + [if !st.isLastDir then UpperSeparator + Tab else Tab]
      else if p.layerNumber < st.curLayer then st.symbols[..p.layerNumber]
      else st.symbols;
    Printer(symbols, p.layerNumber, p.isLastDir)
  }

  /**
   * The loop state once the first k nodes are printed: the stack holds one
   * symbol per layer of node k - 1.
   */
  function StateAt(ps: seq<DirParams>, k: nat): (st: Printer)
    requires Layered(ps) && k <= |ps|
    ensures |st.symbols| == st.curLayer == LayerBefore(ps, k)
    ensures st.isLastDir == (k > 0 && ps[k - 1].isLastDir)
  {
    if k == 0 then Printer([], 0, false)
    else Step(StateAt(ps, k - 1), ps[k - 1])
  }

  /** The line printList writes for node p once the loop state is st. */
  function Line(st: Printer, p: DirParams): string {
    Concat(st.symbols) + Connector(p) + DisplayName(p.dir) + "\n"
  }

  /** The first k lines, line i built by line from the state after node i. */
  function LinesWith(line: (Printer, DirParams) -> string, ps: seq<DirParams>, k: nat): (lines: seq<string>)
    requires Layered(ps) && k <= |ps|
    ensures |lines| == k
  {
    if k == 0 then [] else LinesWith(line, ps, k - 1) + [line(StateAt(ps, k), ps[k - 1])]
  }

  /** All lines printList writes, one per node. */
  function Render(ps: seq<DirParams>): seq<string>
    requires Layered(ps)
  {
    LinesWith(Line, ps, |ps|)
  }

  /** Printing more nodes only appends lines. */
  lemma {:induction false} LinesPrefix(line: (Printer, DirParams) -> string, ps: seq<DirParams>, k: nat, n: nat)
    requires Layered(ps) && k <= n <= |ps|
    ensures LinesWith(line, ps, n)[..k] == LinesWith(line, ps, k)
    decreases n
  {
    if k < n {
      LinesPrefix(line, ps, k, n - 1);
      assert LinesWith(line, ps, n)[..n - 1] == LinesWith(line, ps, n - 1);
    }
  }

  /**
   * Line k is the prefix stack, the connector, the printed name and a newline,
   * and its prefix holds exactly as many symbols as node k's layer.
   */
  lemma RenderLine(ps: seq<DirParams>, k: nat)
    requires Layered(ps) && k < |ps|
    ensures var symbols := StateAt(ps, k + 1).symbols;
            |symbols| == ps[k].layerNumber &&
            Render(ps)[k] == Concat(symbols) + Connector(ps[k]) + DisplayName(ps[k].dir) + "\n"
  {
    LinesPrefix(Line, ps, k + 1, |ps|);
    assert Render(ps)[k] == LinesWith(Line, ps, |ps|)[..k + 1][k];
  }

  /** One more node extends the rendered prefix by that node's line. */
  lemma RenderStep(ps: seq<DirParams>, k: nat)
    requires Layered(ps) && k < |ps|
    ensures |Render(ps)| == |ps|
    ensures Render(ps)[..k + 1] == Render(ps)[..k] + [Line(StateAt(ps, k + 1), ps[k])]
  {
    LinesPrefix(Line, ps, k + 1, |ps|);
    LinesPrefix(Line, ps, k, |ps|);
  }

  /**
   * The last node before position k whose layer is at most j, or -1 when
   * there is none.
   */
  function LastAtOrBelow(ps: seq<DirParams>, k: nat, j: int): (a: int)
    requires k <= |ps|
    ensures -1 <= a < k
    ensures a >= 0 ==> ps[a].layerNumber <= j
    ensures forall i :: a < i < k ==> ps[i].layerNumber > j
  {
    if k == 0 then -1
    else if ps[k - 1].layerNumber <= j then k - 1
    else LastAtOrBelow(ps, k - 1, j)
  }

  /**
   * What column j of line k shows. Let a be the last node before k whose
   * layer is j or less: a then sits exactly at layer j, and is the entry of
   * that level whose subtree the column runs beside. The column is "\t"
   * when a was a last directory (nothing follows it at that level) and "│\t"
   * otherwise, including when there is no such node.
   */
  lemma {:induction false} ColumnSymbol(ps: seq<DirParams>, k: nat, j: nat)
    requires Layered(ps) && k < |ps| && j < ps[k].layerNumber
    ensures |StateAt(ps, k + 1).symbols| == ps[k].layerNumber
    ensures var a := LastAtOrBelow(ps, k, j);
            (a >= 0 ==> ps[a].layerNumber == j) &&
            StateAt(ps, k + 1).symbols[j] == if a >= 0 && ps[a].isLastDir then Tab else UpperSeparator + Tab
  {
    var before := LayerBefore(ps, k);
    assert 0 <= ps[k].layerNumber <= before + 1;
    if j < before {
      assert k > 0 && ps[k - 1].layerNumber > j;
      ColumnSymbol(ps, k - 1, j);
      assert LastAtOrBelow(ps, k, j) == LastAtOrBelow(ps, k - 1, j);
      assert StateAt(ps, k + 1).symbols[j] == StateAt(ps, k).symbols[j];
    } else {
      assert j == before && ps[k].layerNumber == before + 1;
      if k > 0 {
        assert LastAtOrBelow(ps, k, j) == k - 1;
      }
    }
  }

  /**
   * The body of printList's loop for one node, before the write: the printed
   * name, the connector, the update of the prefix stack and the prefix joined
   * into one string. The new state is one Step of the old, and the line is the
   * one Line gives for it.
   */
  method FormatNode(p: DirParams, symbolsArray: seq<string>, curLayer: int, isLastDir: bool)
    returns (line: string, symbolsArray': seq<string>, curLayer': int, isLastDir': bool)
    requires p.layerNumber < curLayer ==> 0 <= p.layerNumber <= |symbolsArray|
    ensures Printer(symbolsArray', curLayer', isLastDir') == Step(Printer(symbolsArray, curLayer, isLastDir), p)
    ensures line == Line(Printer(symbolsArray', curLayer', isLastDir'), p)
  {
    var currName := p.dir.name;
    if !p.dir.isDir {
      if p.dir.size == 0 {
        currName := currName + " (empty)";
      } else {
        currName := currName + " (" + Decimal.Itoa(p.dir.size) + "b)";
      }
    }
    var fileSeparator := if p.isLastDir || p.isLastFile then LastFile else FileConnector;
    symbolsArray', curLayer' := symbolsArray, curLayer;
    if p.layerNumber > curLayer {
      if !isLastDir {
        symbolsArray' := symbolsArray + [UpperSeparator + Tab];
      } else {
        symbolsArray' := symbolsArray + [Tab];
      }
      curLayer' := p.layerNumber;
    } else if p.layerNumber < curLayer {
      symbolsArray' := symbolsArray[..p.layerNumber];
      curLayer' := p.layerNumber;
    }
    isLastDir' := p.isLastDir;
    assert currName == DisplayName(p.dir) && fileSeparator == Connector(p);
    var resultSeparator := JoinSymbols(symbolsArray');
    line := resultSeparator + fileSeparator + currName + "\n";
  }

  /** The indentation of one line: the stack's symbols joined in order. */
  method JoinSymbols(symbols: seq<string>) returns (resultSeparator: string)
    ensures resultSeparator == Concat(symbols)
  {
    resultSeparator := "";
    for j := 0 to |symbols|
      invariant resultSeparator == Concat(symbols[..j])
    {
      assert symbols[..j + 1][..j] == symbols[..j];
      resultSeparator := resultSeparator + symbols[j];
    }
    assert symbols[..|symbols|] == symbols;
  }

  /**
   * printList: one line per node, in list order, each written as soon as it
   * is built. failAt is the index of the first write the writer refuses, if
   * any; printing stops there and reports the error.
   */
  method PrintList(l: List, failAt: Option<nat>) returns (written: seq<string>, err: bool)
    requires l.Valid() && Layered(l.Contents)
    ensures var n := if failAt.Some? && failAt.value < |l.Contents| then failAt.value else |l.Contents|;
            written == Render(l.Contents)[..n] && err == (n < |l.Contents|)
  {
    l.Chain();
    written, err := PrintNodes(l.head, l.nodes, l.Contents, failAt);
  }

  /**
   * The loop of printList, from the head node along the next pointers of
   * the chain nodes, whose data is ps.
   */
  method PrintNodes(head: Node?, ghost nodes: seq<Node>, ghost ps: seq<DirParams>, failAt: Option<nat>)
    returns (written: seq<string>, err: bool)
    requires |nodes| == |ps| && Layered(ps)
    requires head == if nodes == [] then null else nodes[0]
    requires forall i {:trigger nodes[i].data} {:trigger nodes[i].next} :: 0 <= i < |nodes| ==>
               nodes[i].data == ps[i] && nodes[i].next == if i + 1 < |nodes| then nodes[i + 1] else null
    ensures var n := if failAt.Some? && failAt.value < |ps| then failAt.value else |ps|;
            written == Render(ps)[..n] && err == (n < |ps|)
  {
    var curr := head;
    var symbolsArray: seq<string> := [];
    var isLastDir := false;
    var curLayer := 0;
    var writes := 0;
    written := [];
    err := false;
    while curr != null
      invariant 0 <= writes <= |nodes|
      invariant curr == if writes < |nodes| then nodes[writes] else null
      invariant failAt.Some? ==> writes <= failAt.value
      invariant Printer(symbolsArray, curLayer, isLastDir) == StateAt(ps, writes)
      invariant written == Render(ps)[..writes]
      decreases |nodes| - writes
    {
      assert curr.data == ps[writes] && LayerBefore(ps, writes + 1) >= 0;
      var line;
      line, symbolsArray, curLayer, isLastDir := FormatNode(curr.data, symbolsArray, curLayer, isLastDir);
      if failAt.Some? && failAt.value == writes {
        err := true;
        return;
      }
      RenderStep(ps, writes);
      written := written + [line];
      curr := curr.next;
      writes := writes + 1;
    }
  }
}
