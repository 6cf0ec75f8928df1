/**
 * An abstract flattened device tree, as the SoC fixups see it through libfdt.
 *
 * The blob is a map from a node's path to its properties; a property holds a
 * list of 32-bit cells or a string. The fixups never add or remove nodes, so
 * node lookup is map membership. libfdt calls that can fail (growing the blob,
 * writing a property) fail as the store's `Faults` say: a refused write
 * returns its negative error code and leaves the tree as it was.
 */
module FdtStore {

  datatype Option<T> = None | Some(value: T)

  /** An unsigned 32-bit value, the width of one device-tree cell. */
  type u32 = x: int | 0 <= x < 0x1_0000_0000

  type Path = string
  type Name = string

  /** A property value: a list of cells, or a string. */
  datatype Prop = Cells(cells: seq<u32>) | Str(text: string)

  type Props = map<Name, Prop>
  type Tree = map<Path, Props>

  /** libfdt's "no such node or property" error; its calls return errors negated. */
  const FDT_ERR_NOTFOUND: int := 1

  /** What a libfdt call returns: 0 on success, a negative error otherwise. */
  type Status = x: int | x <= 0
  /** A failing libfdt return value. */
  type Error = x: int | x < 0 witness -1

  /**
   * The outcomes the store gives to fallible calls: `grow` is what growing the
   * blob returns, and `refused` holds the writes the store rejects, each with
   * its error.
   */
  datatype Faults = Faults(grow: Status, refused: map<(Path, Name), Error>)

  /** The tree after a fixup step and the status the step returned. */
  datatype Step = Step(tree: Tree, ret: Status)

  /** True when a write of `name` at `path` resolves its node and is accepted. */
  predicate Writable(nodes: set<Path>, f: Faults, path: Path, name: Name)
  {
    path in nodes && (path, name) !in f.refused
  }

  /** fdt_path_offset: a non-negative offset for a node, -FDT_ERR_NOTFOUND otherwise. */
  function PathOffset(t: Tree, path: Path): (offs: int)
    ensures offs < 0 <==> path !in t
  {
    if path in t then 0 else -FDT_ERR_NOTFOUND
  }

  /** fdt_getprop: the value of `name` at an existing node, if it has one. */
  function GetProp(t: Tree, path: Path, name: Name): (v: Option<Prop>)
    requires path in t
    ensures v.None? <==> name !in t[path]
    ensures v.Some? ==> v.value == t[path][name]
  {
    if name in t[path] then Some(t[path][name]) else None
  }

  /** fdt_delprop: the tree without `name` at `path`. */
  function AfterDelProp(t: Tree, path: Path, name: Name): (u: Tree)
    requires path in t
  {
    t[path := t[path] - {name}]
  }

  /** fdt_setprop: overwrite (or add) `name` at `path`, unless the store refuses. */
  function AfterSetProp(t: Tree, f: Faults, path: Path, name: Name, v: Prop): (r: Step)
    requires path in t
  {
    if (path, name) in f.refused then Step(t, f.refused[(path, name)])
    else Step(t[path := t[path][name := v]], 0)
  }

  /**
   * Trees `t` and `u` have the same nodes and agree everywhere except,
   * possibly, on property `name` of node `path`.
   */
  predicate SameExcept(t: Tree, u: Tree, path: Path, name: Name)
  {
    && u.Keys == t.Keys
    && (forall p :: p in t && p != path ==> u[p] == t[p])
    && (path in t ==> u[path] - {name} == t[path] - {name})
  }

  /** The blob handed to the fixups, edited in place through libfdt. */
  class Fdt {
    var tree: Tree
    const faults: Faults

    constructor (t: Tree, f: Faults)
      ensures tree == t && faults == f
    {
      tree := t;
      faults := f;
    }

    /** fdt_increase_size: the blob's contents are untouched. */
    method IncreaseSize(addLen: nat) returns (ret: Status)
      ensures ret == faults.grow
    {
      ret := faults.grow;
    }

    method DelProp(path: Path, name: Name) returns (ret: Status)
      requires path in tree
      modifies this
      ensures tree == AfterDelProp(old(tree), path, name)
      ensures ret == 0 <==> name in old(tree)[path]
    {
      ret := if name in tree[path] then 0 else -FDT_ERR_NOTFOUND;
      tree := AfterDelProp(tree, path, name);
    }

    method SetProp(path: Path, name: Name, v: Prop) returns (ret: Status)
      requires path in tree
      modifies this
      ensures Step(tree, ret) == AfterSetProp(old(tree), faults, path, name, v)
    {
      var s := AfterSetProp(tree, faults, path, name, v);
      tree, ret := s.tree, s.ret;
    }
  }
}
