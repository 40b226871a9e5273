/** Request variables: a chain of names, each heading a chain of its values. */
module Variables {
  import opened CText

  // ----- The multimap -----

  datatype Var = Var(name: string, values: seq<string>)

  /** The first entry with this name, or the number of entries. */
  function IndexOf(vars: seq<Var>, name: string): (i: nat)
    ensures i <= |vars|
    ensures i < |vars| ==> vars[i].name == name
    ensures forall j :: 0 <= j < i ==> vars[j].name != name
  {
    if vars == [] || vars[0].name == name then 0 else 1 + IndexOf(vars[1..], name)
  }

  /** httpdAddVariable: one more value for the name, behind those it has. */
  function Added(vars: seq<Var>, name: string, value: string): (r: seq<Var>) {
    var n := StripBlanks(name);
    var i := IndexOf(vars, n);
    if i < |vars| then vars[i := vars[i].(values := vars[i].values + [value])] else vars + [Var(n, [value])]
  }

  predicate DistinctNames(vars: seq<Var>) {
    && (forall i, j :: 0 <= i < j < |vars| ==> vars[i].name != vars[j].name)
    && (forall v <- vars :: v.values != [])
  }

  function ValuesOf(vars: seq<Var>, name: string): (r: seq<string>) {
    var i := IndexOf(vars, name);
    if i < |vars| then vars[i].values else []
  }

  /** Adding appends to the values of the stripped name and leaves the rest. */
  lemma AddedMeaning(vars: seq<Var>, name: string, value: string, other: string)
    requires DistinctNames(vars)
    ensures DistinctNames(Added(vars, name, value))
    ensures ValuesOf(Added(vars, name, value), other)
         == ValuesOf(vars, other) + if other == StripBlanks(name) then [value] else []
  {
    var n := StripBlanks(name);
    var r := Added(vars, name, value);
    var i, k := IndexOf(vars, other), IndexOf(r, other);
    forall v | v in r
      ensures v.values != []
    {
      var j :| 0 <= j < |r| && r[j] == v;
      assert j < |vars| ==> vars[j] in vars;
    }
    if i < |vars| {
      assert r[i].name == other;
      assert k == i;
    } else if other == n {
      assert r[|vars|].name == other;
      assert k == |vars|;
    } else {
      assert forall j :: 0 <= j < |r| ==> r[j].name != other;
      assert k == |r|;
    }
  }

  function AddedAll(vars: seq<Var>, pairs: seq<(string, string)>): (r: seq<Var>)
    decreases |pairs|
  {
    if pairs == [] then vars else AddedAll(Added(vars, pairs[0].0, pairs[0].1), pairs[1..])
  }

  /** The values given for a name, in order. */
  function GivenFor(pairs: seq<(string, string)>, name: string): (r: seq<string>) {
    if pairs == [] then []
    else (if StripBlanks(pairs[0].0) == name then [pairs[0].1] else []) + GivenFor(pairs[1..], name)
  }

  lemma {:induction false} AddedAllMeaning(vars: seq<Var>, pairs: seq<(string, string)>, name: string)
    requires DistinctNames(vars)
    ensures DistinctNames(AddedAll(vars, pairs))
    ensures ValuesOf(AddedAll(vars, pairs), name) == ValuesOf(vars, name) + GivenFor(pairs, name)
    decreases |pairs|
  {
    hide Added, AddedAll, ValuesOf, GivenFor, DistinctNames, IndexOf, StripBlanks;
    AllUnfold(vars, pairs, name);
    if pairs != [] {
      var p, rest := pairs[0], pairs[1..];
      AddedMeaning(vars, p.0, p.1, name);
      AddedAllMeaning(Added(vars, p.0, p.1), rest, name);
      var own := if name == StripBlanks(p.0) then [p.1] else [];
      assert ValuesOf(vars, name) + own + GivenFor(rest, name) == ValuesOf(vars, name) + (own + GivenFor(rest, name));
    }
  }

  lemma AllUnfold(vars: seq<Var>, pairs: seq<(string, string)>, name: string)
    ensures pairs == [] ==> AddedAll(vars, pairs) == vars && GivenFor(pairs, name) == []
    ensures pairs != [] ==> var p := pairs[0];
              && AddedAll(vars, pairs) == AddedAll(Added(vars, p.0, p.1), pairs[1..])
              && GivenFor(pairs, name) == (if name == StripBlanks(p.0) then [p.1] else []) + GivenFor(pairs[1..], name)
  {
    hide Added, StripBlanks;
  }

  /** httpdSetVariableValue: the first value of the name as given is replaced;
      an unknown name is added, which strips it. */
  function SetTo(vars: seq<Var>, name: string, value: string): (r: seq<Var>) {
    var i := IndexOf(vars, name);
    if i < |vars| && vars[i].values != [] then vars[i := vars[i].(values := [value] + vars[i].values[1..])]
    else Added(vars, name, value)
  }

  predicate NamesStripped(vars: seq<Var>) {
    forall v <- vars :: StripBlanks(v.name) == v.name
  }

  /** httpdGetVariableByName finds the value just set exactly when the name
      does not start with a blank; other names keep theirs, but for the stripped one. */
  lemma SetThenGet(vars: seq<Var>, name: string, value: string, other: string)
    requires DistinctNames(vars) && NamesStripped(vars)
    ensures var r := SetTo(vars, name, value);
            && DistinctNames(r) && NamesStripped(r)
            && ((ValuesOf(r, name) != [] && ValuesOf(r, name)[0] == value) <==> (name == "" || !IsBlank(name[0])))
            && (other != StripBlanks(name) ==> ValuesOf(r, other) == ValuesOf(vars, other))
  {
    var i := IndexOf(vars, name);
    var r := SetTo(vars, name, value);
    AddedStripped(vars, name, value);
    AddedMeaning(vars, name, value, name);
    AddedMeaning(vars, name, value, other);
    StripTwice(name);
    if i < |vars| {
      assert vars[i] in vars && vars[i].name == name;
      ReplacedFirst(vars, i, value, other);
      ReplacedFirst(vars, i, value, name);
    } else if name != "" && IsBlank(name[0]) {
      assert ValuesOf(vars, name) == [];
    }
  }

  lemma {:induction false} StripTwice(name: string)
    ensures StripBlanks(StripBlanks(name)) == StripBlanks(name)
    ensures StripBlanks(name) == name <==> name == "" || !IsBlank(name[0])
  {
    StripShortens(name);
    if name != "" { StripTwice(name[1..]); }
  }

  lemma {:induction false} StripShortens(name: string)
    ensures |StripBlanks(name)| <= |name|
    ensures name != "" && IsBlank(name[0]) ==> |StripBlanks(name)| < |name|
  {
    if name != "" { StripShortens(name[1..]); }
  }

  lemma AddedStripped(vars: seq<Var>, name: string, value: string)
    requires NamesStripped(vars)
    ensures NamesStripped(Added(vars, name, value))
  {
    StripTwice(name);
    var r := Added(vars, name, value);
    forall v | v in r
      ensures StripBlanks(v.name) == v.name
    {
      var j :| 0 <= j < |r| && r[j] == v;
      if j < |vars| {
        assert vars[j] in vars;
      }
    }
  }

  lemma ReplacedFirst(vars: seq<Var>, i: nat, value: string, other: string)
    requires DistinctNames(vars) && NamesStripped(vars) && i < |vars| && vars[i].values != []
    ensures var r := vars[i := vars[i].(values := [value] + vars[i].values[1..])];
            && DistinctNames(r) && NamesStripped(r)
            && ValuesOf(r, other)
            == if other == vars[i].name then [value] + vars[i].values[1..] else ValuesOf(vars, other)
  {
    var r := vars[i := vars[i].(values := [value] + vars[i].values[1..])];
    forall v | v in r
      ensures v.values != [] && StripBlanks(v.name) == v.name
    {
      var j :| 0 <= j < |r| && r[j] == v;
      assert vars[j] in vars;
    }
    assert forall j :: 0 <= j < |r| ==> r[j].name == vars[j].name;
    IndexOfIs(r, other, IndexOf(vars, other));
  }

  // ----- The linked chains -----

  class HttpVar {
    const name: string
    var value: string
    var nextVariable: HttpVar?
    var nextValue: HttpVar?

    constructor (name: string, value: string)
      ensures this.name == name && this.value == value && nextVariable == null && nextValue == null
    {
      this.name, this.value := name, value;
      nextVariable, nextValue := null, null;
    }
  }

  lemma IndexOfIs(vars: seq<Var>, name: string, i: nat)
    requires i <= |vars| && (i < |vars| ==> vars[i].name == name)
    requires forall j :: 0 <= j < i ==> vars[j].name != name
    ensures IndexOf(vars, name) == i
  {
  }

  /** The i-th node of a chain, or null past its end. */
  ghost function NodeAt(chain: seq<HttpVar>, i: nat): (r: HttpVar?) {
    if i < |chain| then chain[i] else null
  }

  ghost predicate Within(rows: seq<seq<HttpVar>>, nodes: set<HttpVar>) {
    forall i, j :: 0 <= i < |rows| && 0 <= j < |rows[i]| ==> rows[i][j] in nodes
  }

  ghost function Values(row: seq<HttpVar>): (v: seq<string>)
    reads row`value
    ensures |v| == |row| && forall j :: 0 <= j < |row| ==> v[j] == row[j].value
  {
    if row == [] then [] else [row[0].value] + Values(row[1..])
  }

  /** No node is in two places. */
  ghost predicate Apart(rows: seq<seq<HttpVar>>) {
    forall i, j, k, l :: 0 <= i < |rows| && 0 <= j < |rows[i]| && 0 <= k < |rows| && 0 <= l < |rows[k]| ==>
      rows[i][j] == rows[k][l] ==> i == k && j == l
  }

  ghost predicate ValuesLinked(rows: seq<seq<HttpVar>>, nodes: set<HttpVar>)
    requires Within(rows, nodes)
    reads nodes`nextValue
  {
    forall i, j :: 0 <= i < |rows| && 0 <= j < |rows[i]| ==> rows[i][j].nextValue == NodeAt(rows[i], j + 1)
  }

  ghost predicate HeadsLinked(first: HttpVar?, heads: seq<HttpVar>, nodes: set<HttpVar>)
    requires forall i :: 0 <= i < |heads| ==> heads[i] in nodes
    reads nodes`nextVariable
  {
    first == NodeAt(heads, 0) && forall i :: 0 <= i < |heads| ==> heads[i].nextVariable == NodeAt(heads, i + 1)
  }

  ghost predicate HeadsOf(heads: seq<HttpVar>, rows: seq<seq<HttpVar>>) {
    |heads| == |rows| && forall i :: 0 <= i < |rows| ==> rows[i] != [] && rows[i][0] == heads[i]
  }

  /** The multimap the chains stand for. */
  ghost predicate RowsMean(rows: seq<seq<HttpVar>>, vars: seq<Var>, nodes: set<HttpVar>)
    requires Within(rows, nodes)
    reads nodes`value
  {
    |vars| == |rows|
    && forall i :: 0 <= i < |rows| ==> rows[i] != [] && vars[i] == Var(rows[i][0].name, Values(rows[i]))
  }

  class Request {
    var variables: HttpVar?
    ghost var heads: seq<HttpVar>
    ghost var rows: seq<seq<HttpVar>>   // rows[i] starts with heads[i]
    ghost var nodes: set<HttpVar>

    /** The variable chain links the heads, each value chain its row. */
    ghost predicate Valid()
      reads this, nodes
    {
      && Within(rows, nodes) && HeadsOf(heads, rows) && Apart(rows)
      && (forall i :: 0 <= i < |heads| ==> heads[i] in nodes)
      && HeadsLinked(variables, heads, nodes) && ValuesLinked(rows, nodes)
    }

    ghost predicate Means(vars: seq<Var>)
      reads this, nodes
    {
      Within(rows, nodes) && RowsMean(rows, vars, nodes)
    }

    constructor ()
      ensures Valid() && Means([]) && rows == []
    {
      variables := null;
      heads, rows, nodes := [], [], {};
    }

    lemma FirstHead(vars: seq<Var>)
      requires Valid() && Means(vars)
      ensures variables == NodeAt(heads, 0) && |heads| == |vars|
    {
    }

    lemma HeadFacts(i: nat, vars: seq<Var>)
      requires Valid() && Means(vars) && i < |heads|
      ensures |heads| == |vars| && vars[i].name == heads[i].name
      ensures heads[i] in nodes && heads[i].nextVariable == NodeAt(heads, i + 1)
      ensures vars[i].values != [] && vars[i].values[0] == heads[i].value
    {
      assert rows[i][0] == heads[i];
      assert Values(rows[i])[0] == heads[i].value;
    }

    /** Walks the variable chain to the entry with this name; lastVar is the
        entry before it. */
    method FindVariable(n: string, ghost vars: seq<Var>) returns (lastVar: HttpVar?, curVar: HttpVar?)
      requires Valid() && Means(vars)
      ensures var i := IndexOf(vars, n);
              curVar == NodeAt(heads, i) && lastVar == if i == 0 then null else heads[i - 1]
    {
      hide Apart, HeadsOf, HeadsLinked, ValuesLinked, RowsMean, Within, Values;
      FirstHead(vars);
      lastVar, curVar := null, variables;
      ghost var i: nat := 0;
      while curVar != null
        invariant i <= |heads| && curVar == NodeAt(heads, i)
        invariant lastVar == if i == 0 then null else heads[i - 1]
        invariant forall j :: 0 <= j < i ==> vars[j].name != n
        decreases |heads| - i
      {
        HeadFacts(i, vars);
        if curVar.name == n {
          break;
        }
        lastVar := curVar;
        curVar := curVar.nextVariable;
        i := i + 1;
      }
      IndexOfIs(vars, n, i);
    }

    /** Walks a value chain to its last node. */
    method LastValue(head: HttpVar, ghost i: nat) returns (lastVar: HttpVar)
      requires Valid() && i < |rows| && head == heads[i]
      ensures lastVar == rows[i][|rows[i]| - 1]
    {
      lastVar := head;
      var curVar: HttpVar? := head;
      ghost var j: nat := 0;
      while curVar != null
        invariant j <= |rows[i]| && curVar == NodeAt(rows[i], j)
        invariant j > 0 ==> lastVar == rows[i][j - 1]
        decreases |rows[i]| - j
      {
        assert rows[i][j].nextValue == NodeAt(rows[i], j + 1);
        lastVar := curVar;
        curVar := curVar.nextValue;
        j := j + 1;
      }
    }

    /** httpdAddVariable */
    method AddVariable(name: string, value: string, ghost vars: seq<Var>)
      requires Valid() && Means(vars)
      modifies this, nodes
      ensures Valid() && Means(Added(vars, name, value))
      ensures fresh(nodes - old(nodes)) && old(nodes) <= nodes
    {
      hide Apart, HeadsOf, HeadsLinked, ValuesLinked, RowsMean, Within, StripBlanks, Values;
      var n := Stripped(name);
      var newVar := new HttpVar(n, value);
      var lastVar, curVar := FindVariable(n, vars);
      ghost var i := IndexOf(vars, n);
      MeansShape(vars);
      if curVar != null {
        lastVar := LastValue(curVar, i);
        LastIsNode(i);
        AppendValue(lastVar, newVar, i, vars);
      } else {
        AppendVariable(lastVar, newVar, vars);
      }
    }

    /** httpdGetVariableByName: the name is compared as given. */
    method GetVariableByName(name: string, ghost vars: seq<Var>) returns (curVar: HttpVar?)
      requires Valid() && Means(vars)
      ensures curVar == NodeAt(heads, IndexOf(vars, name))
      ensures (curVar == null) == (ValuesOf(vars, name) == [])
      ensures curVar != null ==> curVar in nodes && curVar.value == ValuesOf(vars, name)[0]
    {
      hide Apart, HeadsOf, HeadsLinked, ValuesLinked, RowsMean, Within, Values;
      FirstHead(vars);
      curVar := variables;
      ghost var i: nat := 0;
      while curVar != null
        invariant i <= |heads| && curVar == NodeAt(heads, i)
        invariant forall j :: 0 <= j < i ==> vars[j].name != name
        decreases |heads| - i
      {
        HeadFacts(i, vars);
        if curVar.name == name {
          break;
        }
        curVar := curVar.nextVariable;
        i := i + 1;
      }
      IndexOfIs(vars, name, i);
      if curVar != null {
        HeadFacts(i, vars);
      }
    }

    /** httpdSetVariableValue */
    method SetVariableValue(name: string, value: string, ghost vars: seq<Var>)
      requires Valid() && Means(vars)
      modifies this, nodes
      ensures Valid() && Means(SetTo(vars, name, value))
      ensures fresh(nodes - old(nodes)) && old(nodes) <= nodes
    {
      hide Apart, HeadsOf, HeadsLinked, ValuesLinked, RowsMean, RowsMeanBut, Within, Values, Added;
      var found := GetVariableByName(name, vars);
      ghost var i := IndexOf(vars, name);
      MeansShape(vars);
      if found != null {
        HeadOfRow(i, vars);
        MeansBut(rows, vars, i, nodes);
        found.value := value;
        MeansAgain(rows, vars, i, nodes);
      } else {
        AddVariable(name, value, vars);
      }
    }

    lemma HeadOfRow(i: nat, vars: seq<Var>)
      requires Valid() && Means(vars) && i < |heads|
      ensures i < |rows| == |vars| && rows[i] != [] && rows[i][0] == heads[i] && vars[i].values != []
    {
    }

    lemma MeansShape(vars: seq<Var>)
      requires Valid() && Means(vars)
      ensures |vars| == |rows| == |heads|
    {
    }

    lemma LastIsNode(i: nat)
      requires Valid() && i < |rows|
      ensures rows[i] != [] && rows[i][|rows[i]| - 1] in nodes
    {
    }

    /** lastVar->nextValue = newVar */
    method AppendValue(lastVar: HttpVar, newVar: HttpVar, ghost i: nat, ghost vars: seq<Var>)
      requires Valid() && Means(vars) && i < |rows| == |vars|
      requires rows[i] != [] && lastVar == rows[i][|rows[i]| - 1] && lastVar in nodes
      requires newVar !in nodes && newVar.nextValue == null
      modifies this`rows, this`nodes, lastVar`nextValue
      ensures Valid() && Means(vars[i := vars[i].(values := vars[i].values + [newVar.value])])
      ensures nodes == old(nodes) + {newVar}
    {
      hide Apart, HeadsOf, HeadsLinked, ValuesLinked, ValuesLinkedBut, RowsMean, Within, Values;
      ApartSnoc(rows, i, newVar, nodes);
      LinkedButLast(rows, i, nodes);
      lastVar.nextValue := newVar;
      SnocLinked(rows, i, newVar, nodes);
      SnocMeans(rows, i, newVar, vars, nodes);
      HeadsOfSnoc(heads, rows, i, newVar);
      HeadsWiden(variables, heads, nodes, newVar);
      rows, nodes := rows[i := rows[i] + [newVar]], nodes + {newVar};
    }

    /** lastVar->nextVariable = newVar, or the head of the chain. */
    method AppendVariable(lastVar: HttpVar?, newVar: HttpVar, ghost vars: seq<Var>)
      requires Valid() && Means(vars)
      requires lastVar == if heads == [] then null else heads[|heads| - 1]
      requires newVar !in nodes && newVar.nextValue == null && newVar.nextVariable == null
      modifies this, nodes`nextVariable
      ensures Valid() && Means(vars + [Var(newVar.name, [newVar.value])])
      ensures nodes == old(nodes) + {newVar}
    {
      hide Apart, HeadsOf, HeadsLinked, HeadsLinkedBut, ValuesLinked, RowsMean, Within, Values;
      ApartRow(rows, newVar, nodes);
      HeadsApart(heads, rows);
      HeadsButLast(variables, heads, nodes);
      RowLinked(rows, newVar, nodes);
      RowMeans(rows, newVar, vars, nodes);
      HeadsOfRow(heads, rows, newVar);
      if lastVar != null {
        lastVar.nextVariable := newVar;
      } else {
        variables := newVar;
      }
      HeadsSnocLinked(variables, heads, newVar, nodes);
      heads, rows, nodes := heads + [newVar], rows + [[newVar]], nodes + {newVar};
    }
  }

  method Stripped(name: string) returns (n: string)
    ensures n == StripBlanks(name)
  {
    n := name;
    while n != "" && IsBlank(n[0])
      invariant StripBlanks(n) == StripBlanks(name)
      decreases |n|
    {
      n := n[1..];
    }
  }

  /** The multimap, but for the first value of row i. */
  ghost predicate RowsMeanBut(rows: seq<seq<HttpVar>>, vars: seq<Var>, i: nat, others: set<HttpVar>)
    reads others`value
  {
    && |vars| == |rows| && i < |rows| && rows[i] != [] && vars[i].values != []
    && (forall k, j :: 0 <= k < |rows| && (if k == i then 1 else 0) <= j < |rows[k]| ==> rows[k][j] in others)
    && (forall k :: 0 <= k < |rows| ==> rows[k] != [] && vars[k].name == rows[k][0].name)
    && (forall k :: 0 <= k < |rows| && k != i ==> vars[k].values == Values(rows[k]))
    && vars[i].values[1..] == Values(rows[i][1..])
  }

  lemma MeansBut(rows: seq<seq<HttpVar>>, vars: seq<Var>, i: nat, nodes: set<HttpVar>)
    requires Within(rows, nodes) && RowsMean(rows, vars, nodes) && Apart(rows) && i < |rows|
    ensures rows[i] != [] && RowsMeanBut(rows, vars, i, nodes - {rows[i][0]})
  {
    assert Values(rows[i])[1..] == Values(rows[i][1..]);
  }

  lemma MeansAgain(rows: seq<seq<HttpVar>>, vars: seq<Var>, i: nat, nodes: set<HttpVar>)
    requires i < |rows| && rows[i] != [] && Within(rows, nodes) && RowsMeanBut(rows, vars, i, nodes - {rows[i][0]})
    ensures RowsMean(rows, vars[i := vars[i].(values := [rows[i][0].value] + vars[i].values[1..])], nodes)
  {
  }

  /** The value chains, but for the last link of row i. */
  ghost predicate ValuesLinkedBut(rows: seq<seq<HttpVar>>, i: nat, others: set<HttpVar>)
    reads others`nextValue
  {
    forall k, j :: 0 <= k < |rows| && 0 <= j < |rows[k]| && !(k == i && j == |rows[i]| - 1) ==>
      rows[k][j] in others && rows[k][j].nextValue == NodeAt(rows[k], j + 1)
  }

  lemma LinkedButLast(rows: seq<seq<HttpVar>>, i: nat, nodes: set<HttpVar>)
    requires Within(rows, nodes) && ValuesLinked(rows, nodes) && Apart(rows) && i < |rows| && rows[i] != []
    ensures ValuesLinkedBut(rows, i, nodes - {rows[i][|rows[i]| - 1]})
  {
  }

  lemma SnocLinked(rows: seq<seq<HttpVar>>, i: nat, n: HttpVar, nodes: set<HttpVar>)
    requires i < |rows| && rows[i] != [] && rows[i][|rows[i]| - 1].nextValue == n && n.nextValue == null
    requires Within(rows, nodes) && ValuesLinkedBut(rows, i, nodes - {rows[i][|rows[i]| - 1]})
    ensures var r := rows[i := rows[i] + [n]]; Within(r, nodes + {n}) && ValuesLinked(r, nodes + {n})
  {
    var after: seq<seq<HttpVar>> := rows[i := rows[i] + [n]];
    forall k, j | 0 <= k < |after| && 0 <= j < |after[k]|
      ensures after[k][j].nextValue == NodeAt(after[k], j + 1) && after[k][j] in nodes + {n}
    {
      if k != i || j < |rows[i]| {
        assert after[k][j] == rows[k][j];
      }
    }
  }

  lemma SnocMeans(rows: seq<seq<HttpVar>>, i: nat, n: HttpVar, vars: seq<Var>, nodes: set<HttpVar>)
    requires i < |rows| && Within(rows, nodes) && RowsMean(rows, vars, nodes)
    ensures Within(rows[i := rows[i] + [n]], nodes + {n})
    ensures RowsMean(rows[i := rows[i] + [n]], vars[i := vars[i].(values := vars[i].values + [n.value])], nodes + {n})
  {
    assert Values(rows[i] + [n]) == Values(rows[i]) + [n.value];
  }

  lemma HeadsOfSnoc(heads: seq<HttpVar>, rows: seq<seq<HttpVar>>, i: nat, n: HttpVar)
    requires HeadsOf(heads, rows) && i < |rows|
    ensures HeadsOf(heads, rows[i := rows[i] + [n]])
  {
  }

  lemma HeadsOfRow(heads: seq<HttpVar>, rows: seq<seq<HttpVar>>, n: HttpVar)
    requires HeadsOf(heads, rows)
    ensures HeadsOf(heads + [n], rows + [[n]])
  {
  }

  lemma HeadsWiden(first: HttpVar?, heads: seq<HttpVar>, nodes: set<HttpVar>, n: HttpVar)
    requires (forall i :: 0 <= i < |heads| ==> heads[i] in nodes) && HeadsLinked(first, heads, nodes)
    ensures HeadsLinked(first, heads, nodes + {n})
  {
  }

  lemma HeadsApart(heads: seq<HttpVar>, rows: seq<seq<HttpVar>>)
    requires HeadsOf(heads, rows) && Apart(rows)
    ensures forall i, j :: 0 <= i < j < |heads| ==> heads[i] != heads[j]
  {
    forall i, j | 0 <= i < j < |heads|
      ensures heads[i] != heads[j]
    {
      assert rows[i][0] == heads[i] && rows[j][0] == heads[j];
    }
  }

  /** The variable chain, but for the link of the last head. */
  ghost predicate HeadsLinkedBut(heads: seq<HttpVar>, others: set<HttpVar>)
    reads others`nextVariable
  {
    forall i :: 0 <= i < |heads| - 1 ==> heads[i] in others && heads[i].nextVariable == NodeAt(heads, i + 1)
  }

  lemma HeadsButLast(first: HttpVar?, heads: seq<HttpVar>, nodes: set<HttpVar>)
    requires (forall i :: 0 <= i < |heads| ==> heads[i] in nodes) && HeadsLinked(first, heads, nodes)
    requires forall i, j :: 0 <= i < j < |heads| ==> heads[i] != heads[j]
    ensures first == NodeAt(heads, 0)
    ensures HeadsLinkedBut(heads, if heads == [] then nodes else nodes - {heads[|heads| - 1]})
  {
  }

  lemma HeadsSnocLinked(first: HttpVar?, heads: seq<HttpVar>, n: HttpVar, nodes: set<HttpVar>)
    requires n.nextVariable == null && forall i :: 0 <= i < |heads| ==> heads[i] in nodes
    requires if heads == [] then first == n else first == heads[0] && heads[|heads| - 1].nextVariable == n
    requires HeadsLinkedBut(heads, if heads == [] then nodes else nodes - {heads[|heads| - 1]})
    ensures forall i :: 0 <= i < |heads + [n]| ==> (heads + [n])[i] in nodes + {n}
    ensures HeadsLinked(first, heads + [n], nodes + {n})
  {
    var after: seq<HttpVar> := heads + [n];
    forall i | 0 <= i < |after|
      ensures after[i].nextVariable == NodeAt(after, i + 1)
    {
      if i < |heads| {
        assert after[i] == heads[i];
      }
    }
  }

  lemma RowLinked(rows: seq<seq<HttpVar>>, n: HttpVar, nodes: set<HttpVar>)
    requires Within(rows, nodes) && ValuesLinked(rows, nodes) && n.nextValue == null
    ensures Within(rows + [[n]], nodes + {n}) && ValuesLinked(rows + [[n]], nodes + {n})
  {
    var after: seq<seq<HttpVar>> := rows + [[n]];
    forall k, j | 0 <= k < |after| && 0 <= j < |after[k]|
      ensures after[k][j].nextValue == NodeAt(after[k], j + 1) && after[k][j] in nodes + {n}
    {
      if k < |rows| {
        assert after[k] == rows[k];
      }
    }
  }

  lemma RowMeans(rows: seq<seq<HttpVar>>, n: HttpVar, vars: seq<Var>, nodes: set<HttpVar>)
    requires Within(rows, nodes) && RowsMean(rows, vars, nodes)
    ensures Within(rows + [[n]], nodes + {n})
    ensures RowsMean(rows + [[n]], vars + [Var(n.name, [n.value])], nodes + {n})
  {
    assert Values([n]) == [n.value];
  }

  lemma ApartSnoc(rows: seq<seq<HttpVar>>, i: nat, n: HttpVar, nodes: set<HttpVar>)
    requires Apart(rows) && Within(rows, nodes) && i < |rows| && n !in nodes
    ensures Apart(rows[i := rows[i] + [n]])
  {
    var after: seq<seq<HttpVar>> := rows[i := rows[i] + [n]];
    forall a, b | 0 <= a < |after| && 0 <= b < |after[a]|
      ensures after[a][b] == if a == i && b == |rows[i]| then n else rows[a][b]
    {
    }
  }

  lemma ApartRow(rows: seq<seq<HttpVar>>, n: HttpVar, nodes: set<HttpVar>)
    requires Apart(rows) && Within(rows, nodes) && n !in nodes
    ensures Apart(rows + [[n]])
  {
    var after: seq<seq<HttpVar>> := rows + [[n]];
    forall a, b | 0 <= a < |after| && 0 <= b < |after[a]|
      ensures after[a][b] == if a == |rows| then n else rows[a][b]
    {
    }
  }
}
