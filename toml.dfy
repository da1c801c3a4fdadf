/**
 * An abstract model of the format-preserving TOML document the commands edit
 * (`toml_edit::DocumentMut`): an ordered tree of keys and items, where a value
 * item keeps its suffix decor (what follows it on its line, such as `# comment`).
 * Parsing and printing text are not modelled; the tree is what the commands see.
 * `Table::get_mut`, on the document, finds existing keys only; `Item::get_mut`
 * (the index of `Item`) inserts a placeholder for a key missing from a table-like
 * item, which `InsertChild` models together with what is then stored there.
 */
module Toml {
  import opened Wrappers

  /** A TOML value. Inline-table entries are items, as in toml_edit, each with its own decor. */
  datatype Value =
    | Str(text: string)
    | Inline(entries: seq<(string, Item)>)
    | OtherScalar

  /** An entry of a table: a value with its suffix decor, a standard table, or an array of tables. */
  datatype Item =
    | Val(value: Value, suffix: Option<string>)
    | Table(entries: seq<(string, Item)>)
    | ArrayOfTables(tables: seq<seq<(string, Item)>>)

  /** A parsed manifest: its root table. */
  type Document = d: Item | d.Table? witness Table([])

  /** The manifest file as found on disk. */
  datatype Manifest = Missing | Malformed(error: string) | Present(doc: Document)

  function Keys(es: seq<(string, Item)>): (ks: seq<string>)
    ensures |ks| == |es| && forall i :: 0 <= i < |es| ==> ks[i] == es[i].0
  {
    seq(|es|, i requires 0 <= i < |es| => es[i].0)
  }

  /** No key occurs twice: true of every table a TOML parser produces. */
  predicate UniqueKeys(es: seq<(string, Item)>)
  {
    forall i, j :: 0 <= i < j < |es| ==> es[i].0 != es[j].0
  }

  /** The position of the entry with key `k`: the first one, should there be several. */
  function FindKey(es: seq<(string, Item)>, k: string): (r: Option<nat>)
    ensures r.None? <==> k !in Keys(es)
    ensures r.Some? ==> r.value < |es| && es[r.value].0 == k
    ensures r.Some? ==> forall j :: 0 <= j < r.value ==> es[j].0 != k
  {
    if es == [] then None
    else if es[0].0 == k then Some(0)
    else match FindKey(es[1..], k)
      case None => None
      case Some(i) => Some(i + 1)
  }

  lemma FindKeyByKeys(a: seq<(string, Item)>, b: seq<(string, Item)>, k: string)
    requires Keys(a) == Keys(b)
    ensures FindKey(a, k) == FindKey(b, k)
  {
  }

  /** `Table::get` / `InlineTable::get` on the entries. */
  function Lookup(es: seq<(string, Item)>, k: string): (r: Option<Item>)
    ensures r.Some? <==> k in Keys(es)
    ensures r.Some? ==> (k, r.value) in es
  {
    match FindKey(es, k)
    case None => None
    case Some(i) => Some(es[i].1)
  }

  /** Assignment through `get_mut(k)`: the entry keeps its key and its position. */
  function Replace(es: seq<(string, Item)>, k: string, v: Item): (r: seq<(string, Item)>)
    ensures Keys(r) == Keys(es)
    ensures Lookup(r, k) == if k in Keys(es) then Some(v) else None
    ensures forall j :: j != k ==> Lookup(r, j) == Lookup(es, j)
    ensures forall i :: 0 <= i < |es| && es[i].0 != k ==> r[i] == es[i]
    ensures k !in Keys(es) ==> r == es
    ensures Lookup(es, k) == Some(v) ==> r == es
  {
    match FindKey(es, k)
    case None => es
    case Some(i) =>
      var r := es[i := (k, v)];
      assert Keys(r) == Keys(es);
      forall j ensures FindKey(r, j) == FindKey(es, j) {
        FindKeyByKeys(r, es, j);
      }
      r
  }

  /** `IndexMap::insert`: replaces an existing entry in place, otherwise appends. */
  function Insert(es: seq<(string, Item)>, k: string, v: Item): (r: seq<(string, Item)>)
    ensures Keys(r) == if k in Keys(es) then Keys(es) else Keys(es) + [k]
    ensures Lookup(r, k) == Some(v)
    ensures forall j :: j != k ==> Lookup(r, j) == Lookup(es, j)
    ensures UniqueKeys(es) ==> UniqueKeys(r)
  {
    if k in Keys(es) then
      UniqueKeysByKeys(es, Replace(es, k, v));
      Replace(es, k, v)
    else
      AppendLookup(es, k, v);
      es + [(k, v)]
  }

  lemma UniqueKeysByKeys(a: seq<(string, Item)>, b: seq<(string, Item)>)
    requires Keys(a) == Keys(b)
    ensures UniqueKeys(a) ==> UniqueKeys(b)
  {
    if UniqueKeys(a) {
      forall i, j | 0 <= i < j < |b| ensures b[i].0 != b[j].0 {
        assert Keys(a)[i] == Keys(b)[i] && Keys(a)[j] == Keys(b)[j];
      }
    }
  }

  lemma AppendLookup(es: seq<(string, Item)>, k: string, v: Item)
    requires k !in Keys(es)
    ensures Keys(es + [(k, v)]) == Keys(es) + [k]
    ensures Lookup(es + [(k, v)], k) == Some(v)
    ensures forall j :: j != k ==> Lookup(es + [(k, v)], j) == Lookup(es, j)
    ensures UniqueKeys(es) ==> UniqueKeys(es + [(k, v)])
  {
    var r := es + [(k, v)];
    assert Keys(r) == Keys(es) + [k];
    forall j | j != k ensures FindKey(r, j) == FindKey(es, j) {
      AppendFindKey(es, (k, v), j);
    }
    AppendFindKey(es, (k, v), k);
    if UniqueKeys(es) {
      forall i, j | 0 <= i < j < |r| ensures r[i].0 != r[j].0 {
        if j == |es| {
          assert Keys(es)[i] == es[i].0;
        }
      }
    }
  }

  lemma {:induction false} AppendFindKey(es: seq<(string, Item)>, e: (string, Item), j: string)
    ensures FindKey(es + [e], j) == if j in Keys(es) then FindKey(es, j) else if e.0 == j then Some(|es|) else None
  {
    if es != [] {
      AppendFindKey(es[1..], e, j);
      assert (es + [e])[1..] == es[1..] + [e];
      assert Keys(es) == [es[0].0] + Keys(es[1..]);
    }
  }

  /** `Item::as_table_like`: the entries of a standard or an inline table. */
  function TableLike(it: Item): Option<seq<(string, Item)>>
  {
    match it
    case Table(es) => Some(es)
    case Val(Inline(es), _) => Some(es)
    case _ => None
  }

  /** `Item::get(k)`: absent unless the item is table-like and has the key. */
  function Get(it: Item, k: string): Option<Item>
  {
    match TableLike(it)
    case None => None
    case Some(es) => Lookup(es, k)
  }

  /** Both items are of the same kind, and a value keeps its decor. */
  predicate SameShape(a: Item, b: Item)
  {
    match (a, b)
    case (Table(_), Table(_)) => true
    case (Val(va, sa), Val(vb, sb)) => sa == sb && (va.Inline? <==> vb.Inline?) && (va.Str? <==> vb.Str?)
    case (ArrayOfTables(_), ArrayOfTables(_)) => true
    case _ => false
  }

  /** Assignment to the item under an existing key `k`; nothing happens when `k` is absent. */
  function SetChild(parent: Item, k: string, child: Item): (r: Item)
    ensures SameShape(parent, r)
    ensures Get(r, k) == if Get(parent, k).Some? then Some(child) else None
    ensures forall j :: j != k ==> Get(r, j) == Get(parent, j)
    ensures TableLike(r).Some? <==> TableLike(parent).Some?
    ensures TableLike(parent).Some? ==> Keys(TableLike(r).value) == Keys(TableLike(parent).value)
    ensures Get(parent, k).None? ==> r == parent
    ensures Get(parent, k) == Some(child) ==> r == parent
  {
    match parent
    case Table(es) => Table(Replace(es, k, child))
    case Val(Inline(es), s) => Val(Inline(Replace(es, k, child)), s)
    case _ => parent
  }

  /** `parent[k] = child` on a table-like item: replace in place or append. */
  function InsertChild(parent: Item, k: string, child: Item): (r: Item)
    requires TableLike(parent).Some?
    ensures SameShape(parent, r) && TableLike(r).Some?
    ensures Keys(TableLike(r).value) ==
      if Get(parent, k).Some? then Keys(TableLike(parent).value) else Keys(TableLike(parent).value) + [k]
    ensures Get(r, k) == Some(child)
    ensures forall j :: j != k ==> Get(r, j) == Get(parent, j)
  {
    match parent
    case Table(es) => Table(Insert(es, k, child))
    case Val(Inline(es), s) => Val(Inline(Insert(es, k, child)), s)
  }

  /** On a key that is there, inserting is assigning in place. */
  lemma InsertChildExisting(parent: Item, k: string, child: Item)
    requires TableLike(parent).Some? && Get(parent, k).Some?
    ensures InsertChild(parent, k, child) == SetChild(parent, k, child)
  {
  }

  /** The item reached by following a path of keys, as a chain of `get` calls does. */
  function GetAt(it: Item, path: seq<string>): Option<Item>
    decreases |path|
  {
    if path == [] then Some(it)
    else match Get(it, path[0])
      case None => None
      case Some(c) => GetAt(c, path[1..])
  }

  /**
   * Assignment to the item a chain of lookups reaches: the item at `path` is
   * replaced, and the tree is left as it was when the path does not lead anywhere.
   * (`Item::get_mut` inserts a key it does not find in a table-like item; the
   * commands' models spell that out with `InsertChild` where it matters.)
   */
  function SetAt(it: Item, path: seq<string>, replacement: Item): (r: Item)
    requires path != []
    ensures SameShape(it, r)
    decreases |path|
  {
    if |path| == 1 then
      assert path[1..] == [];
      SetChild(it, path[0], replacement)
    else match Get(it, path[0])
      case None => it
      case Some(c) => SetChild(it, path[0], SetAt(c, path[1..], replacement))
  }

  /** Editing along a path that leads nowhere leaves the tree as it was. */
  lemma {:induction false} SetAtAbsent(it: Item, path: seq<string>, replacement: Item)
    requires path != [] && GetAt(it, path).None?
    ensures SetAt(it, path, replacement) == it
    decreases |path|
  {
    if |path| == 1 {
      assert path[1..] == [];
    } else if Get(it, path[0]).Some? {
      SetAtAbsent(Get(it, path[0]).value, path[1..], replacement);
    }
  }

  /** Two paths part ways at some key: neither is a prefix of the other. */
  predicate Diverge(p: seq<string>, q: seq<string>)
    decreases |p|
  {
    p != [] && q != [] && (p[0] != q[0] || Diverge(p[1..], q[1..]))
  }

  /** The keys, in order, of the table-like item at a path. */
  function KeysAt(it: Item, path: seq<string>): Option<seq<string>>
  {
    match GetAt(it, path)
    case None => None
    case Some(x) =>
      match TableLike(x)
      case None => None
      case Some(es) => Some(Keys(es))
  }

  /** After the edit, the path leads to the new item. */
  lemma {:induction false} SetAtGet(it: Item, path: seq<string>, replacement: Item)
    requires path != [] && GetAt(it, path).Some?
    ensures GetAt(SetAt(it, path, replacement), path) == Some(replacement)
    decreases |path|
  {
    if |path| > 1 {
      var c := Get(it, path[0]).value;
      SetAtGet(c, path[1..], replacement);
    }
  }

  /** Every path that parts ways with the edited one leads where it led before. */
  lemma {:induction false} SetAtFrame(it: Item, path: seq<string>, q: seq<string>, replacement: Item)
    requires path != [] && Diverge(path, q)
    ensures GetAt(SetAt(it, path, replacement), q) == GetAt(it, q)
    decreases |path|
  {
    var r := SetAt(it, path, replacement);
    if path[0] != q[0] {
      if |path| > 1 && Get(it, path[0]).Some? {
        assert Get(r, q[0]) == Get(it, q[0]);
      }
    } else if Get(it, path[0]).Some? {
      var c := Get(it, path[0]).value;
      SetAtFrame(c, path[1..], q[1..], replacement);
    }
  }

  /** Every table on the way to the edited item keeps its keys in their order. */
  lemma {:induction false} SetAtKeys(it: Item, path: seq<string>, replacement: Item, q: seq<string>)
    requires q < path
    ensures KeysAt(SetAt(it, path, replacement), q) == KeysAt(it, q)
    decreases |q|
  {
    if q == [] {
      SetAtRootKeys(it, path, replacement);
    } else if Get(it, path[0]).None? {
      SetAtNoChild(it, path, replacement);
    } else {
      var c := Get(it, path[0]).value;
      assert q[1..] < path[1..];
      SetAtKeys(c, path[1..], replacement, q[1..]);
      SetAtDown(it, path, replacement, q);
    }
  }

  lemma SetAtNoChild(it: Item, path: seq<string>, replacement: Item)
    requires |path| > 1 && Get(it, path[0]).None?
    ensures SetAt(it, path, replacement) == it
  {
  }

  lemma SetAtDown(it: Item, path: seq<string>, replacement: Item, q: seq<string>)
    requires q < path && q != [] && Get(it, path[0]).Some?
    requires KeysAt(SetAt(Get(it, path[0]).value, path[1..], replacement), q[1..]) == KeysAt(Get(it, path[0]).value, q[1..])
    ensures KeysAt(SetAt(it, path, replacement), q) == KeysAt(it, q)
  {
    var c := Get(it, path[0]).value;
    var c' := SetAt(c, path[1..], replacement);
    var r := SetChild(it, path[0], c');
    SetAtUnfold(it, path, replacement);
    assert Get(r, path[0]) == Some(c');
    assert q == [path[0]] + q[1..];
    KeysBelow(it, r, path[0], c, c', q[1..]);
  }

  lemma SetAtUnfold(it: Item, path: seq<string>, replacement: Item)
    requires |path| > 1 && Get(it, path[0]).Some?
    ensures SetAt(it, path, replacement) == SetChild(it, path[0], SetAt(Get(it, path[0]).value, path[1..], replacement))
  {
  }

  /** Assigning at `path + [k]` is assigning, at `path`, the item found there with its `k` replaced. */
  lemma {:induction false} SetAtExtend(it: Item, path: seq<string>, k: string, x: Item)
    requires path != [] && GetAt(it, path).Some?
    ensures SetAt(it, path + [k], x) == SetAt(it, path, SetChild(GetAt(it, path).value, k, x))
    decreases |path|
  {
    var c := Get(it, path[0]).value;
    assert (path + [k])[0] == path[0] && (path + [k])[1..] == path[1..] + [k];
    SetAtUnfold(it, path + [k], x);
    if |path| == 1 {
      assert path[1..] + [k] == [k] && path[1..] == [];
    } else {
      SetAtExtend(c, path[1..], k, x);
      SetAtUnfold(it, path, SetChild(GetAt(c, path[1..]).value, k, x));
    }
  }

  /** The edited tree's root keeps its keys in their order. */
  lemma SetAtRootKeys(it: Item, path: seq<string>, replacement: Item)
    requires path != []
    ensures KeysAt(SetAt(it, path, replacement), []) == KeysAt(it, [])
  {
    var r := SetAt(it, path, replacement);
    if |path| > 1 && Get(it, path[0]).None? {
      assert r == it;
    } else {
      var c := if |path| == 1 then replacement else SetAt(Get(it, path[0]).value, path[1..], replacement);
      assert r == SetChild(it, path[0], c);
      SetChildKeys(it, path[0], c);
    }
  }

  /** Two trees whose children at `k` agree on the keys at `p` agree on the keys at `[k] + p`. */
  lemma KeysBelow(it: Item, r: Item, k: string, c: Item, c': Item, p: seq<string>)
    requires Get(it, k) == Some(c) && Get(r, k) == Some(c')
    requires KeysAt(c', p) == KeysAt(c, p)
    ensures KeysAt(r, [k] + p) == KeysAt(it, [k] + p)
  {
    KeysAtCons(r, k, p);
    KeysAtCons(it, k, p);
  }

  lemma SetChildKeys(parent: Item, k: string, child: Item)
    ensures KeysAt(SetChild(parent, k, child), []) == KeysAt(parent, [])
  {
    var r := SetChild(parent, k, child);
    assert GetAt(r, []) == Some(r) && GetAt(parent, []) == Some(parent);
  }

  lemma KeysAtCons(it: Item, k: string, p: seq<string>)
    ensures KeysAt(it, [k] + p) == match Get(it, k) case None => None case Some(c) => KeysAt(c, p)
  {
    assert ([k] + p)[1..] == p;
  }

  /** Writing back what a path already leads to changes nothing. */
  lemma {:induction false} SetAtSame(it: Item, path: seq<string>, replacement: Item)
    requires path != [] && GetAt(it, path) == Some(replacement)
    ensures SetAt(it, path, replacement) == it
    decreases |path|
  {
    if |path| == 1 {
      assert path[1..] == [];
      assert Get(it, path[0]) == Some(replacement);
    } else {
      var c := Get(it, path[0]).value;
      SetAtSame(c, path[1..], replacement);
    }
  }

  /** Following a one-key path is a single `get`. */
  lemma GetAtSingle(it: Item, k: string)
    ensures GetAt(it, [k]) == Get(it, k)
  {
    assert [k][1..] == [];
    if Get(it, k).Some? {
      assert GetAt(Get(it, k).value, []) == Get(it, k);
    }
  }

  /** Following `[k] + p` is a `get` of `k` followed by `p`. */
  lemma GetAtCons(it: Item, k: string, p: seq<string>)
    ensures GetAt(it, [k] + p) == match Get(it, k) case None => None case Some(c) => GetAt(c, p)
  {
    assert ([k] + p)[1..] == p;
  }

  /** An edit along a path leaves the same keys present at the top. */
  lemma SetAtPresence(it: Item, path: seq<string>, replacement: Item, k: string)
    requires path != []
    ensures Get(SetAt(it, path, replacement), k).Some? <==> Get(it, k).Some?
  {
    if |path| > 1 && Get(it, path[0]).Some? {
      SetAtUnfold(it, path, replacement);
    }
  }
}
