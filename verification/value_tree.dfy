/** The slice of an observable key-value tree (JUCE's ValueTree) that the
    attachments use: nodes holding named properties, property writes that are
    recorded together with the undo manager they went through, and the
    notification modes a widget setter may be asked to use.

    A forest maps each valid node to its property set; a valid node without
    properties maps to `map[]`, and a node absent from the map is an invalid
    ValueTree. Reading an absent node finds no property, and writing to one
    gives it a property set, so the operations below are total; only the
    attachments' constructors insist on a valid node. */
module ValueTree {

  /** A property name (juce::Identifier). */
  type Key = string

  /** The name a juce::Identifier is left holding once it has been moved from. */
  const NullKey: Key := ""

  /** Identity of a tree node (two ValueTree handles compare equal when they
      refer to the same node). */
  type NodeId = nat

  /** Identity of a widget (the address a listener callback receives). */
  type WidgetId = nat

  /** A lookup result: the value found, or nothing under that key. */
  datatype Option<T> = None | Some(value: T)

  /** The optional undo manager a write is routed through; opaque to the
      attachments, which only pass it along. */
  datatype Undo = NoUndo | UndoManager(id: nat)

  /** How a widget setter tells the widget's listeners about the change
      (juce::NotificationType). */
  datatype Notification = DontSend | SendSync | SendAsync

  type Props<V> = map<Key, V>

  type Forest<V> = map<NodeId, Props<V>>

  /** One call of setProperty: which node, which key, what value, and the undo
      manager it was recorded by. */
  datatype Write<V> = Write(node: NodeId, key: Key, value: V, undo: Undo)

  function PropsOf<V>(f: Forest<V>, n: NodeId): Props<V> {
    if n in f then f[n] else map[]
  }

  /** The value stored under key `k` of node `n`, if any. */
  function Lookup<V>(f: Forest<V>, n: NodeId, k: Key): (r: Option<V>)
    ensures r.Some? <==> n in f && k in f[n]
    ensures r.Some? ==> r.value == f[n][k]
  {
    if k in PropsOf(f, n) then Some(PropsOf(f, n)[k]) else None
  }

  /** ValueTree::hasProperty. */
  predicate HasProperty<V>(f: Forest<V>, n: NodeId, k: Key) {
    Lookup(f, n, k).Some?
  }

  /** ValueTree::getProperty, converted to the widget's value kind: a missing
      property reads as `absent` (a void var converts to the kind's zero). */
  function GetProperty<V>(f: Forest<V>, n: NodeId, k: Key, absent: V): V {
    if k in PropsOf(f, n) then PropsOf(f, n)[k] else absent
  }

  /** ValueTree::setProperty: afterwards the key holds `v`, and no other
      (node, key) pair has changed. */
  function SetProperty<V>(f: Forest<V>, n: NodeId, k: Key, v: V): (r: Forest<V>)
    ensures Lookup(r, n, k) == Some(v)
    ensures forall m, j :: m != n || j != k ==> Lookup(r, m, j) == Lookup(f, m, j)
    ensures r.Keys == f.Keys + {n}
  {
    f[n := PropsOf(f, n)[k := v]]
  }

  /** ValueTree::removeProperty: afterwards the key is absent, and no other
      (node, key) pair has changed. */
  function RemoveProperty<V>(f: Forest<V>, n: NodeId, k: Key): (r: Forest<V>)
    ensures Lookup(r, n, k) == None
    ensures forall m, j :: m != n || j != k ==> Lookup(r, m, j) == Lookup(f, m, j)
    ensures r.Keys == f.Keys + {n}
  {
    f[n := PropsOf(f, n) - {k}]
  }

  /** Writing back the value a key already holds changes nothing. */
  lemma SetPropertySameValue<V>(f: Forest<V>, n: NodeId, k: Key)
    requires HasProperty(f, n, k)
    ensures SetProperty(f, n, k, f[n][k]) == f
  {
    var r := SetProperty(f, n, k, f[n][k]);
    assert r[n] == f[n];
  }
}
