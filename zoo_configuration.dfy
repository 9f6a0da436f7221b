/**
 * Layered configuration lookup: a property is read from the ZooKeeper
 * cache when its key may live there and the stored value is well formed,
 * and from the parent configuration otherwise; properties that are fixed
 * at startup are remembered after their first read.
 */
module ZooConfig {

  datatype Option<T> = None | Some(value: T)

  /** A configuration property: its key and the name of its value type. */
  datatype Property = Property(key: string, valueType: string)

  /** The static rules of the property catalogue, left uninterpreted:
      which keys may be set in ZooKeeper, which properties are fixed once
      read, and whether a value is well formed for a value type. */
  datatype PropertyRules = PropertyRules(
    isValidZooPropertyKey: string -> bool,
    isFixedZooPropertyKey: Property -> bool,
    isValidFormat: (string, string) -> bool)

  /** The part of the properties map that the parent supplies: its
      entries whose key the filter accepts. */
  function ParentProperties(parent: map<string, string>, accept: string -> bool): map<string, string>
  {
    map k | k in parent && accept(k) :: parent[k]
  }

  /** `base` overwritten, child by child, with the ZooKeeper value of each
      child that is present, accepted by the filter and has a value. */
  function Overlay(base: map<string, string>, kids: seq<Option<string>>, accept: string -> bool,
                   zoo: map<string, string>): map<string, string>
  {
    if kids == [] then base
    else
      var before := Overlay(base, kids[..|kids| - 1], accept, zoo);
      match kids[|kids| - 1]
      case Some(c) => if accept(c) && c in zoo then before[c := zoo[c]] else before
      case None => before
  }

  /** A key that the overlay takes from ZooKeeper. */
  predicate OverlaidKey(k: string, kids: seq<Option<string>>, accept: string -> bool, zoo: map<string, string>)
  {
    Some(k) in kids && accept(k) && k in zoo
  }

  /** The overlay holds the base's keys and the overlaid ones; an
      overlaid key carries its ZooKeeper value, any other key keeps the
      base's value. */
  lemma {:induction false} OverlayEntries(base: map<string, string>, kids: seq<Option<string>>,
                                          accept: string -> bool, zoo: map<string, string>)
    ensures forall k :: k in Overlay(base, kids, accept, zoo) <==> k in base || OverlaidKey(k, kids, accept, zoo)
    ensures forall k :: OverlaidKey(k, kids, accept, zoo) ==> Overlay(base, kids, accept, zoo)[k] == zoo[k]
    ensures forall k :: k in base && !OverlaidKey(k, kids, accept, zoo) ==> Overlay(base, kids, accept, zoo)[k] == base[k]
  {
    if kids != [] {
      var init, last := kids[..|kids| - 1], kids[|kids| - 1];
      OverlayEntries(base, init, accept, zoo);
      assert kids == init + [last];
      assert forall k :: Some(k) in kids <==> Some(k) in init || last == Some(k);
    }
  }

  class ZooConfiguration {
    const rules: PropertyRules
    /** The parent configuration's values, by key. */
    const parent: map<string, string>
    /** What the ZooKeeper cache answers for each child of the
        configuration node, by child name. */
    var zoo: map<string, string>
    /** The children of the configuration node; None when ZooKeeper has
        none to list, and a child itself may be missing. */
    var children: Option<seq<Option<string>>>
    /** Values of fixed properties, stored at their first read; a stored
        value may itself be missing. */
    var fixedProps: map<string, Option<string>>

    constructor (rules: PropertyRules, parent: map<string, string>,
                 zoo: map<string, string>, children: Option<seq<Option<string>>>)
      ensures this.rules == rules && this.parent == parent
      ensures this.zoo == zoo && this.children == children
      ensures fixedProps == map[]
    {
      this.rules := rules;
      this.parent := parent;
      this.zoo := zoo;
      this.children := children;
      fixedProps := map[];
    }

    /** The raw value cached under the configuration node for `key`. */
    function ZooGet(key: string): Option<string>
      reads this
    {
      if key in zoo then Some(zoo[key]) else None
    }

    /** The parent configuration's value for `p`. */
    function ParentGet(p: Property): Option<string>
    {
      if p.key in parent then Some(parent[p.key]) else None
    }

    /** ZooKeeper holds a value for `p` that may be used: the key is one
        ZooKeeper may set and the value is well formed for the type. */
    predicate ZooHasUsable(p: Property)
      reads this
    {
      rules.isValidZooPropertyKey(p.key) && p.key in zoo && rules.isValidFormat(p.valueType, zoo[p.key])
    }

    /** The layered read of a property, before any memoisation. */
    function Lookup(p: Property): (r: Option<string>)
      reads this
      ensures ZooHasUsable(p) ==> r == Some(zoo[p.key])
      ensures !rules.isValidZooPropertyKey(p.key) ==> r == ParentGet(p)
      ensures p.key !in zoo ==> r == ParentGet(p)
      ensures p.key in zoo && !rules.isValidFormat(p.valueType, zoo[p.key]) ==> r == ParentGet(p)
      ensures r == ParentGet(p) || (ZooHasUsable(p) && r == Some(zoo[p.key]))
    {
      var value := if rules.isValidZooPropertyKey(p.key) then ZooGet(p.key) else None;
      if value.None? || !rules.isValidFormat(p.valueType, value.value) then ParentGet(p) else value
    }

    /** Reads a property. A fixed property answers from `fixedProps`
        once it has been read, and is stored there at its first read;
        any other property is looked up afresh every time. */
    method Get(p: Property) returns (v: Option<string>)
      modifies this`fixedProps
      ensures rules.isFixedZooPropertyKey(p) && p.key in old(fixedProps) ==> v == old(fixedProps)[p.key]
      ensures !(rules.isFixedZooPropertyKey(p) && p.key in old(fixedProps)) ==> v == Lookup(p)
      ensures rules.isFixedZooPropertyKey(p) ==> p.key in fixedProps && fixedProps[p.key] == v
      ensures rules.isFixedZooPropertyKey(p) ==> fixedProps == old(fixedProps)[p.key := v]
      ensures !rules.isFixedZooPropertyKey(p) ==> fixedProps == old(fixedProps)
    {
      if rules.isFixedZooPropertyKey(p) {
        if p.key in fixedProps {
          v := fixedProps[p.key];
        } else {
          v := Lookup(p);
          fixedProps := fixedProps[p.key := v];
        }
      } else {
        v := Lookup(p);
      }
    }

    /** Drops the cached ZooKeeper data; later reads see what ZooKeeper
        holds now, passed in as `current` and `currentChildren`. The
        values of fixed properties are kept. */
    method InvalidateCache(current: map<string, string>, currentChildren: Option<seq<Option<string>>>)
      modifies this`zoo, this`children
      ensures zoo == current && children == currentChildren
      ensures fixedProps == old(fixedProps)
    {
      zoo, children := current, currentChildren;
    }

    /** Fills `props` with the parent's accepted properties, then
        overwrites them with the ZooKeeper value of every listed child
        that is present, accepted and has a value. */
    method GetProperties(props: map<string, string>, accept: string -> bool) returns (result: map<string, string>)
      ensures var kids := if children.Some? then children.value else [];
              result == Overlay(props + ParentProperties(parent, accept), kids, accept, zoo)
      ensures var kids := if children.Some? then children.value else [];
              forall k :: k in result <==> k in props || (k in parent && accept(k)) || OverlaidKey(k, kids, accept, zoo)
      ensures var kids := if children.Some? then children.value else [];
              forall k :: OverlaidKey(k, kids, accept, zoo) ==> result[k] == zoo[k]
      ensures var kids := if children.Some? then children.value else [];
              forall k :: k in parent && accept(k) && !OverlaidKey(k, kids, accept, zoo) ==> result[k] == parent[k]
      ensures var kids := if children.Some? then children.value else [];
              forall k :: k in props && !(k in parent && accept(k)) && !OverlaidKey(k, kids, accept, zoo) ==> result[k] == props[k]
    {
      var base := props + ParentProperties(parent, accept);
      result := base;
      var kids := if children.Some? then children.value else [];
      var i := 0;
      while i < |kids|
        invariant 0 <= i <= |kids|
        invariant result == Overlay(base, kids[..i], accept, zoo)
      {
        assert kids[..i + 1][..i] == kids[..i];
        var child := kids[i];
        if child.Some? && accept(child.value) {
          var value := ZooGet(child.value);
          if value.Some? {
            result := result[child.value := value.value];
          }
        }
        i := i + 1;
      }
      assert kids[..i] == kids;
      OverlayEntries(base, kids, accept, zoo);
    }
  }

  /** A fixed property keeps its first value through cache invalidation
      and whatever ZooKeeper holds afterwards. */
  method FixedPropertySurvivesInvalidation(c: ZooConfiguration, p: Property,
                                            current: map<string, string>, currentChildren: Option<seq<Option<string>>>)
    returns (first: Option<string>, second: Option<string>)
    requires c.rules.isFixedZooPropertyKey(p)
    modifies c
    ensures first == second
  {
    first := c.Get(p);
    c.InvalidateCache(current, currentChildren);
    second := c.Get(p);
  }
}
