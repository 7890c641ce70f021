/**
 * The recursive canonicalizers (`tool_schema_canonicalizer.py`, `json_canonicalizer.py`): sorted keys,
 * integral floats as integers and, in the JSON variant, runs of spaces in string values collapsed.
 *
 * Dictionaries are ordered trees here, as Python keeps them, so equality of trees is equality of output.
 */
module CanonicalJson {
  import opened KeyOrder
  import opened OrderedDict

  datatype Value =
    | Null
    | Bool(b: bool)
    | Int(n: int)
    | Float(r: real)
    | Str(s: string)
    | List(elements: seq<Value>)
    | Dict(items: seq<Item<Value>>)

  /** No dictionary repeats a key. */
  predicate IsTree(v: Value) {
    match v
    case List(vs) => forall i :: 0 <= i < |vs| ==> IsTree(vs[i])
    case Dict(items) => Distinct(items) && forall i :: 0 <= i < |items| ==> IsTree(items[i].value)
    case _ => true
  }

  /* ---------- Runs of spaces ---------- */

  /** `re.sub(r" {2,}", " ", s)` */
  function Collapse(s: string): string {
    if s == [] then []
    else if |s| >= 2 && s[0] == ' ' && s[1] == ' ' then Collapse(s[1..])
    else [s[0]] + Collapse(s[1..])
  }

  function DropSpaces(s: string): (r: string)
    ensures |r| <= |s|
    ensures s != [] && s[0] == ' ' ==> |r| < |s|
    ensures r != [] ==> r[0] != ' '
  {
    if s != [] && s[0] == ' ' then DropSpaces(s[1..]) else s
  }

  /** The same text, except that a run of spaces may have any positive length. */
  predicate SameUpToSpaceRuns(s: string, t: string)
    decreases |s|
  {
    if s == [] || t == [] then s == t
    else if s[0] == ' ' && t[0] == ' ' then SameUpToSpaceRuns(DropSpaces(s), DropSpaces(t))
    else s[0] == t[0] && SameUpToSpaceRuns(s[1..], t[1..])
  }

  lemma {:induction false} CollapseRun(s: string)
    requires s != [] && s[0] == ' '
    ensures Collapse(s) == " " + Collapse(DropSpaces(s))
  {
    if |s| >= 2 && s[1] == ' ' {
      CollapseRun(s[1..]);
    }
  }

  lemma {:induction false} CollapseAgrees(s: string, t: string)
    ensures Collapse(s) == Collapse(t) <==> SameUpToSpaceRuns(s, t)
    decreases |s|
  {
    if s != [] && s[0] == ' ' {
      CollapseRun(s);
    }
    if t != [] && t[0] == ' ' {
      CollapseRun(t);
    }
    if s != [] && t != [] {
      assert Collapse(s)[0] == s[0] && Collapse(t)[0] == t[0];
      if s[0] == ' ' && t[0] == ' ' {
        CollapseAgrees(DropSpaces(s), DropSpaces(t));
        assert Collapse(s)[1..] == Collapse(DropSpaces(s)) && Collapse(t)[1..] == Collapse(DropSpaces(t));
      } else if s[0] == t[0] {
        CollapseAgrees(s[1..], t[1..]);
        assert Collapse(s)[1..] == Collapse(s[1..]) && Collapse(t)[1..] == Collapse(t[1..]);
      }
    }
  }

  lemma {:induction false} SameUpToSpaceRunsReflexive(s: string)
    ensures SameUpToSpaceRuns(s, Collapse(s))
  {
    CollapseTwice(s);
    CollapseAgrees(s, Collapse(s));
  }

  lemma {:induction false} CollapseTwice(s: string)
    ensures Collapse(Collapse(s)) == Collapse(s)
    decreases |s|
  {
    if s != [] {
      CollapseTwice(s[1..]);
      if s[0] == ' ' {
        CollapseRun(s);
        var rest := DropSpaces(s);
        CollapseTwice(rest);
        assert rest != [] ==> Collapse(rest)[0] == rest[0];
        assert (" " + Collapse(rest))[1..] == Collapse(rest);
      } else {
        assert Collapse(s)[1..] == Collapse(s[1..]);
      }
    }
  }

  /* ---------- The canonicalizer ---------- */

  /** `_canonicalize_value`; `collapse` is true for `JsonCanonicalizer`, which also normalizes strings. */
  function Canonicalize(v: Value, collapse: bool): Value
    decreases v
  {
    match v
    case List(vs) => List(seq(|vs|, i requires 0 <= i < |vs| => Canonicalize(vs[i], collapse)))
    case Dict(items) =>
      var sorted := Sorted(items);
      assert forall i :: 0 <= i < |sorted| ==> sorted[i] in items;
      Dict(seq(|sorted|, i requires 0 <= i < |sorted| => Entry(sorted[i].key, Canonicalize(sorted[i].value, collapse))))
    case Float(r) => if r == r.Floor as real then Int(r.Floor) else v
    case Str(s) => if collapse then Str(Collapse(s)) else v
    case _ => v
  }

  /* ---------- What the canonical form decides ---------- */

  predicate IsNumeric(v: Value) { v.Int? || v.Float? }

  function NumberOf(v: Value): real
    requires IsNumeric(v)
  {
    if v.Int? then v.n as real else v.r
  }

  /** Equal up to the order of keys, the spelling of whole numbers and, with `collapse`, runs of spaces. */
  predicate Alike(a: Value, b: Value, collapse: bool)
    decreases a
  {
    if IsNumeric(a) then IsNumeric(b) && NumberOf(a) == NumberOf(b)
    else match a
      case Str(s) => b.Str? && if collapse then SameUpToSpaceRuns(s, b.s) else s == b.s
      case List(vs) => b.List? && |vs| == |b.elements| && forall i :: 0 <= i < |vs| ==>
          Alike(vs[i], b.elements[i], collapse)
      case Dict(items) =>
        && b.Dict?
        && (forall i {:trigger HasPartner(items[i], b.items, collapse)} ::
              0 <= i < |items| ==> HasPartner(items[i], b.items, collapse))
        && (forall j {:trigger HasKey(items, b.items[j].key)} :: 0 <= j < |b.items| ==> HasKey(items, b.items[j].key))
      case _ => a == b
  }

  predicate HasKey(items: seq<Item<Value>>, key: string) {
    exists i :: 0 <= i < |items| && items[i].key == key
  }

  /** An item with the same key and a value that means the same. */
  predicate HasPartner(x: Item<Value>, items: seq<Item<Value>>, collapse: bool)
    decreases x
  {
    exists j :: 0 <= j < |items| && items[j].key == x.key && Alike(x.value, items[j].value, collapse)
  }

  /** The canonical form is complete: it is the same for two trees exactly when they mean the same. */
  lemma {:induction false} CanonicalIsComplete(a: Value, b: Value, collapse: bool)
    requires IsTree(a) && IsTree(b)
    ensures Canonicalize(a, collapse) == Canonicalize(b, collapse) <==> Alike(a, b, collapse)
    decreases a
  {
    match a
    case Str(s) =>
      if b.Str? {
        CollapseAgrees(s, b.s);
      }
    case List(vs) =>
      if b.List? && |vs| == |b.elements| {
        forall i | 0 <= i < |vs|
          ensures Canonicalize(vs[i], collapse) == Canonicalize(b.elements[i], collapse) <==>
              Alike(vs[i], b.elements[i], collapse)
        {
          CanonicalIsComplete(vs[i], b.elements[i], collapse);
        }
        ListCase(a, b, collapse);
      }
    case Dict(items) =>
      if b.Dict? {
        forall i | 0 <= i < |items| ensures Decided(items[i], b.items, collapse) {
          forall j | 0 <= j < |b.items|
            ensures Canonicalize(items[i].value, collapse) == Canonicalize(b.items[j].value, collapse)
               <==> Alike(items[i].value, b.items[j].value, collapse)
          {
            CanonicalIsComplete(items[i].value, b.items[j].value, collapse);
          }
        }
        if Canonicalize(a, collapse) == Canonicalize(b, collapse) {
          SameFormIsAlike(a, b, collapse);
        }
        if Alike(a, b, collapse) {
          AlikeIsSameForm(a, b, collapse);
        }
      }
    case _ =>
  }

  lemma {:induction false} ListCase(a: Value, b: Value, collapse: bool)
    requires a.List? && b.List? && |a.elements| == |b.elements|
    requires forall i :: 0 <= i < |a.elements| ==>
      (Canonicalize(a.elements[i], collapse) == Canonicalize(b.elements[i], collapse) <==>
          Alike(a.elements[i], b.elements[i], collapse))
    ensures Canonicalize(a, collapse) == Canonicalize(b, collapse) <==> Alike(a, b, collapse)
  {
    var ca, cb := Canonicalize(a, collapse).elements, Canonicalize(b, collapse).elements;
    assert forall i :: 0 <= i < |ca| ==>
        ca[i] == Canonicalize(a.elements[i], collapse) && cb[i] == Canonicalize(b.elements[i], collapse);
    if Alike(a, b, collapse) {
      assert ca == cb;
    }
  }

  /** Canonicalization decides whether the values of `x` and of any item of `items` are alike. */
  ghost predicate Decided(x: Item<Value>, items: seq<Item<Value>>, collapse: bool) {
    forall j :: 0 <= j < |items| ==>
      (Alike(x.value, items[j].value, collapse) <==>
       Canonicalize(x.value, collapse) == Canonicalize(items[j].value, collapse))
  }

  lemma CanonicalItem(v: Value, collapse: bool, k: nat)
    requires v.Dict? && k < |Sorted(v.items)|
    ensures k < |Canonicalize(v, collapse).items|
    ensures Canonicalize(v, collapse).items[k] ==
            Entry(Sorted(v.items)[k].key, Canonicalize(Sorted(v.items)[k].value, collapse))
  {}

  /** Equal forms pair every item of `a` with an item of `b`. */
  lemma {:induction false} SameFormPartner(a: Value, b: Value, collapse: bool, i: nat) returns (j: nat)
    requires a.Dict? && b.Dict? && i < |a.items| && Canonicalize(a, collapse) == Canonicalize(b, collapse)
    ensures j < |b.items| && b.items[j].key == a.items[i].key
    ensures Canonicalize(a.items[i].value, collapse) == Canonicalize(b.items[j].value, collapse)
  {
    assert a.items[i] in Sorted(a.items);
    var k :| 0 <= k < |Sorted(a.items)| && Sorted(a.items)[k] == a.items[i];
    CanonicalItem(a, collapse, k);
    assert |Canonicalize(b, collapse).items| == |Sorted(b.items)|;
    CanonicalItem(b, collapse, k);
    assert Sorted(b.items)[k] in b.items;
    j :| 0 <= j < |b.items| && b.items[j] == Sorted(b.items)[k];
  }

  lemma {:induction false} SameFormIsAlike(a: Value, b: Value, collapse: bool)
    requires a.Dict? && b.Dict? && forall i :: 0 <= i < |a.items| ==> Decided(a.items[i], b.items, collapse)
    requires Canonicalize(a, collapse) == Canonicalize(b, collapse)
    ensures Alike(a, b, collapse)
  {
    forall i | 0 <= i < |a.items| ensures HasPartner(a.items[i], b.items, collapse) {
      var j := SameFormPartner(a, b, collapse, i);
      assert Alike(a.items[i].value, b.items[j].value, collapse);
    }
    forall j | 0 <= j < |b.items| ensures HasKey(a.items, b.items[j].key) {
      var i := SameFormPartner(b, a, collapse, j);
    }
  }

  lemma SortedKeysWithin(a: seq<Item<Value>>, b: seq<Item<Value>>, k: nat)
    requires k < |Sorted(a)| && forall i {:trigger HasKey(b, a[i].key)} :: 0 <= i < |a| ==> HasKey(b, a[i].key)
    ensures Sorted(a)[k].key in Keys(Sorted(b))
  {
    assert Sorted(a)[k] in a;
    var i :| 0 <= i < |a| && a[i] == Sorted(a)[k];
    assert HasKey(b, a[i].key);
    var j :| 0 <= j < |b| && b[j].key == a[i].key;
    assert b[j] in Sorted(b);
  }

  /** Items with the same key, at the same place after sorting, have the same form. */
  lemma {:induction false} AlikeAtPlace(a: seq<Item<Value>>, b: seq<Item<Value>>, collapse: bool, k: nat)
    requires Distinct(b) && forall i :: 0 <= i < |a| ==> Decided(a[i], b, collapse)
    requires forall i {:trigger HasPartner(a[i], b, collapse)} :: 0 <= i < |a| ==> HasPartner(a[i], b, collapse)
    requires k < |Sorted(a)| == |Sorted(b)| && Sorted(a)[k].key == Sorted(b)[k].key
    ensures Canonicalize(Sorted(a)[k].value, collapse) == Canonicalize(Sorted(b)[k].value, collapse)
  {
    assert Sorted(a)[k] in a && Sorted(b)[k] in b;
    var i :| 0 <= i < |a| && a[i] == Sorted(a)[k];
    assert HasPartner(a[i], b, collapse);
    var j :| 0 <= j < |b| && b[j].key == a[i].key && Alike(a[i].value, b[j].value, collapse);
    var h :| 0 <= h < |b| && b[h] == Sorted(b)[k];
    assert h == j;
  }

  lemma {:induction false} AlikeIsSameForm(a: Value, b: Value, collapse: bool)
    requires a.Dict? && b.Dict? && Distinct(a.items) && Distinct(b.items)
    requires forall i :: 0 <= i < |a.items| ==> Decided(a.items[i], b.items, collapse)
    requires Alike(a, b, collapse)
    ensures Canonicalize(a, collapse) == Canonicalize(b, collapse)
  {
    var sa, sb := Sorted(a.items), Sorted(b.items);
    SortedIsSorted(a.items);
    SortedIsSorted(b.items);
    forall i | 0 <= i < |a.items| ensures HasKey(b.items, a.items[i].key) {
      assert HasPartner(a.items[i], b.items, collapse);
    }
    forall k | 0 <= k < |sa| ensures sa[k].key in Keys(sb) { SortedKeysWithin(a.items, b.items, k); }
    forall k | 0 <= k < |sb| ensures sb[k].key in Keys(sa) { SortedKeysWithin(b.items, a.items, k); }
    SameKeysSamePlaces(sa, sb);
    var ca, cb := Canonicalize(a, collapse).items, Canonicalize(b, collapse).items;
    assert |ca| == |sa| && |cb| == |sb|;
    forall k | 0 <= k < |sa| ensures ca[k] == cb[k] {
      AlikeAtPlace(a.items, b.items, collapse, k);
      CanonicalItem(a, collapse, k);
      CanonicalItem(b, collapse, k);
    }
    assert ca == cb;
  }

  /* ---------- Shape of the canonical form ---------- */

  /** Every level strictly sorted, no whole number written as a float, and no run of spaces if collapsed. */
  predicate IsCanonical(v: Value, collapse: bool) {
    match v
    case Float(r) => r != r.Floor as real
    case Str(s) => collapse ==> forall i :: 0 <= i < |s| - 1 ==> !(s[i] == ' ' && s[i + 1] == ' ')
    case List(vs) => forall i :: 0 <= i < |vs| ==> IsCanonical(vs[i], collapse)
    case Dict(items) => StrictlySorted(items) && forall i :: 0 <= i < |items| ==> IsCanonical(items[i].value, collapse)
    case _ => true
  }

  lemma {:induction false} CollapseHasNoRuns(s: string, i: nat)
    requires i < |Collapse(s)| - 1
    ensures !(Collapse(s)[i] == ' ' && Collapse(s)[i + 1] == ' ')
    decreases |s|, i
  {
    if |s| >= 2 && s[0] == ' ' && s[1] == ' ' {
      CollapseHasNoRuns(s[1..], i);
    } else if i > 0 {
      CollapseHasNoRuns(s[1..], i - 1);
    } else if s[0] == ' ' {
      CollapseRun(s);
      var rest := DropSpaces(s);
      assert rest != [] && Collapse(rest)[0] == rest[0];
    }
  }

  lemma {:induction false} CanonicalizeIsCanonical(v: Value, collapse: bool)
    requires IsTree(v)
    ensures IsCanonical(Canonicalize(v, collapse), collapse)
    ensures IsTree(Canonicalize(v, collapse))
    ensures Alike(v, Canonicalize(v, collapse), collapse)
    decreases v
  {
    match v
    case Str(s) =>
      SameUpToSpaceRunsReflexive(s);
      forall i | 0 <= i < |Collapse(s)| - 1 ensures !(Collapse(s)[i] == ' ' && Collapse(s)[i + 1] == ' ') {
        CollapseHasNoRuns(s, i);
      }
    case List(vs) =>
      forall i | 0 <= i < |vs|
        ensures IsCanonical(Canonicalize(vs[i], collapse), collapse) && IsTree(Canonicalize(vs[i], collapse))
        ensures Alike(vs[i], Canonicalize(vs[i], collapse), collapse)
      {
        CanonicalizeIsCanonical(vs[i], collapse);
      }
    case Dict(items) =>
      forall i | 0 <= i < |items|
        ensures IsCanonical(Canonicalize(items[i].value, collapse), collapse)
            && IsTree(Canonicalize(items[i].value, collapse))
        ensures Alike(items[i].value, Canonicalize(items[i].value, collapse), collapse)
      {
        CanonicalizeIsCanonical(items[i].value, collapse);
      }
      DictIsCanonical(v, collapse);
    case _ =>
  }

  lemma DictIsCanonical(v: Value, collapse: bool)
    requires v.Dict? && Distinct(v.items)
    requires forall i :: 0 <= i < |v.items| ==>
      var c := Canonicalize(v.items[i].value, collapse);
      IsCanonical(c, collapse) && IsTree(c) && Alike(v.items[i].value, c, collapse)
    ensures IsCanonical(Canonicalize(v, collapse), collapse)
    ensures IsTree(Canonicalize(v, collapse))
    ensures Alike(v, Canonicalize(v, collapse), collapse)
  {
    var s, c := Sorted(v.items), Canonicalize(v, collapse).items;
    SortedIsSorted(v.items);
    assert |c| == |s|;
    forall k | 0 <= k < |c|
      ensures c[k].key == s[k].key && IsCanonical(c[k].value, collapse) && IsTree(c[k].value)
      ensures HasKey(v.items, c[k].key)
    {
      CanonicalItem(v, collapse, k);
      assert s[k] in v.items;
    }
    forall i, j | 0 <= i < j < |c| ensures Less(c[i].key, c[j].key) && c[i].key != c[j].key {
      LessTotal(c[i].key, c[j].key);
    }
    forall i | 0 <= i < |v.items| ensures HasPartner(v.items[i], c, collapse) {
      assert v.items[i] in s;
      var k :| 0 <= k < |s| && s[k] == v.items[i];
      CanonicalItem(v, collapse, k);
    }
  }

  /** Canonicalizing twice changes nothing more. */
  lemma CanonicalizeIdempotent(v: Value, collapse: bool)
    requires IsTree(v)
    ensures Canonicalize(Canonicalize(v, collapse), collapse) == Canonicalize(v, collapse)
  {
    CanonicalizeIsCanonical(v, collapse);
    CanonicalIsComplete(v, Canonicalize(v, collapse), collapse);
  }

  /* ---------- Tool definitions ---------- */

  /** Position of the `function` entry, or the number of items. */
  function FunctionAt(tool: seq<Item<Value>>): nat { Find(tool, "function") }

  /** The tool has a `function` entry that is a dictionary. */
  predicate HasFunction(tool: seq<Item<Value>>) {
    FunctionAt(tool) < |tool| && tool[FunctionAt(tool)].value.Dict?
  }

  function FunctionOf(tool: seq<Item<Value>>): Value
    requires HasFunction(tool)
  {
    tool[FunctionAt(tool)].value
  }

  /** `_canonicalize_tool`: the function is canonicalized and the top-level keys sorted; other tools are only copied. */
  function CanonicalizeTool(tool: seq<Item<Value>>): seq<Item<Value>> {
    if !HasFunction(tool) then tool
    else Sorted(tool[FunctionAt(tool) := Entry("function", Canonicalize(FunctionOf(tool), false))])
  }

  /** The same keys, alike functions, and every other entry identical. */
  ghost predicate ToolsAlike(a: seq<Item<Value>>, b: seq<Item<Value>>)
    requires HasFunction(a) && HasFunction(b)
  {
    && Alike(FunctionOf(a), FunctionOf(b), false)
    && forall e: Item<Value> :: e.key != "function" ==> (e in a <==> e in b)
  }

  lemma ToolItems(tool: seq<Item<Value>>, e: Item<Value>)
    requires Distinct(tool) && HasFunction(tool)
    ensures e in CanonicalizeTool(tool) <==>
            if e.key == "function" then e.value == Canonicalize(FunctionOf(tool), false) else e in tool
    ensures Distinct(tool[FunctionAt(tool) := Entry("function", Canonicalize(FunctionOf(tool), false))])
  {
    var k := FunctionAt(tool);
    var done := tool[k := Entry("function", Canonicalize(FunctionOf(tool), false))];
    assert forall i :: 0 <= i < |done| ==> done[i].key == tool[i].key && (i != k ==> done[i] == tool[i]);
    assert done[k] in done;
    if e in tool && e.key != "function" {
      var i :| 0 <= i < |tool| && tool[i] == e;
      assert done[i] == e;
    }
  }

  /** The form of a tool is sorted, its function is canonical and means the same, and all other entries stay. */
  lemma ToolFormIsCanonical(tool: seq<Item<Value>>)
    requires IsTree(Dict(tool)) && HasFunction(tool)
    ensures var form := CanonicalizeTool(tool);
      && StrictlySorted(form) && HasFunction(form)
      && IsCanonical(FunctionOf(form), false) && Alike(FunctionOf(tool), FunctionOf(form), false)
      && forall e: Item<Value> :: e.key != "function" ==> (e in form <==> e in tool)
  {
    var form := CanonicalizeTool(tool);
    var f := Entry("function", Canonicalize(FunctionOf(tool), false));
    FormKeepsFunction(tool);
    forall e: Item<Value> ensures e in form <==> if e.key == "function" then e == f else e in tool {
      ToolItems(tool, e);
    }
    assert tool[FunctionAt(tool)] in tool;
    CanonicalizeIsCanonical(FunctionOf(tool), false);
    SortedIsSorted(tool[FunctionAt(tool) := f]);
    assert form[FunctionAt(form)] in form;
  }

  /** Strictly sorted lists with the same items are equal. */
  lemma SameItemsSameList(a: seq<Item<Value>>, b: seq<Item<Value>>)
    requires StrictlySorted(a) && StrictlySorted(b) && forall e :: e in a <==> e in b
    ensures a == b
  {
    forall i | 0 <= i < |a| ensures a[i].key in Keys(b) { assert a[i] in b; }
    forall i | 0 <= i < |b| ensures b[i].key in Keys(a) { assert b[i] in a; }
    SameKeysSamePlaces(a, b);
    forall i | 0 <= i < |a| ensures a[i] == b[i] {
      assert a[i] in b;
      var j :| 0 <= j < |b| && b[j] == a[i];
      LessTotal(a[i].key, a[i].key);
      assert j == i;
    }
  }

  /**
   * Exactly when two tool definitions get the same form: tools with a function agree up to top-level key
   * order and up to the meaning of the function, but tools without one only when they are identical.
   */
  lemma ToolFormIsComplete(a: seq<Item<Value>>, b: seq<Item<Value>>)
    requires IsTree(Dict(a)) && IsTree(Dict(b))
    ensures CanonicalizeTool(a) == CanonicalizeTool(b) <==>
            if HasFunction(a) && HasFunction(b) then ToolsAlike(a, b)
            else if !HasFunction(a) && !HasFunction(b) then a == b
            else false
  {
    if HasFunction(a) && HasFunction(b) {
      ToolFormWithFunctions(a, b);
    } else if HasFunction(a) {
      FormKeepsFunction(a);
    } else if HasFunction(b) {
      FormKeepsFunction(b);
    }
  }

  lemma FormKeepsFunction(tool: seq<Item<Value>>)
    requires Distinct(tool) && HasFunction(tool)
    ensures HasFunction(CanonicalizeTool(tool))
  {
    var e := Entry("function", Canonicalize(FunctionOf(tool), false));
    ToolItems(tool, e);
    var form := CanonicalizeTool(tool);
    var i :| 0 <= i < |form| && form[i] == e;
    var k := FunctionAt(form);
    assert form[k] in form;
    ToolItems(tool, form[k]);
  }

  lemma ToolFormWithFunctions(a: seq<Item<Value>>, b: seq<Item<Value>>)
    requires IsTree(Dict(a)) && IsTree(Dict(b)) && HasFunction(a) && HasFunction(b)
    ensures CanonicalizeTool(a) == CanonicalizeTool(b) <==> ToolsAlike(a, b)
  {
    var fa, fb := Entry("function", Canonicalize(FunctionOf(a), false)),
        Entry("function", Canonicalize(FunctionOf(b), false));
    CanonicalIsComplete(FunctionOf(a), FunctionOf(b), false);
    forall e: Item<Value>
      ensures e in CanonicalizeTool(a) <==> if e.key == "function" then e == fa else e in a
      ensures e in CanonicalizeTool(b) <==> if e.key == "function" then e == fb else e in b
    {
      ToolItems(a, e);
      ToolItems(b, e);
    }
    if CanonicalizeTool(a) == CanonicalizeTool(b) {
      assert fa in CanonicalizeTool(b);
    }
    if ToolsAlike(a, b) {
      ToolItems(a, fa);
      ToolItems(b, fb);
      SortedIsSorted(a[FunctionAt(a) := fa]);
      SortedIsSorted(b[FunctionAt(b) := fb]);
      SameItemsSameList(CanonicalizeTool(a), CanonicalizeTool(b));
    }
  }
}
