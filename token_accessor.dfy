/** `FluidDesignTokenAccessor`: the frozen table of original design tokens,
    the map of overridden and created tokens on top of it, the ordered set of
    all token keys, the read-only proxy view over them, and the memoised
    mangling of token names into CSS custom-property names. */
module TokenAccessor {
  import opened Common
  import opened Text

  // ---------------------------------------------------------------------
  // Keys, values and the proxy view
  // ---------------------------------------------------------------------

  /** A JavaScript property key: a string or a symbol (symbols by identity). */
  datatype PropertyKey = Name(name: string) | Symbol(id: nat)

  /** A token value as the proxy hands it out. `Frozen` stands for any
      (deeply frozen) object value by identity. */
  datatype TokenValue = Undefined | Null | Text(text: string) | Number(number: int) | Frozen(id: nat)

  /** `null` or `undefined`, the values `??` passes over. */
  predicate Nullish(v: TokenValue) {
    v.Undefined? || v.Null?
  }

  /** A property descriptor: the original table's own descriptor for a key,
      or the descriptor the proxy makes up for a created token. */
  datatype Descriptor = TargetDescriptor(key: PropertyKey) | CreatedDescriptor(enumerable: bool, configurable: bool)

  /** The outcome of a trap that may throw. */
  datatype Outcome<T> = Done(value: T) | Error(message: string)

  const SetRejected := "Setting design tokens directly is not allowed, use setOverride() instead."

  /** `Set.prototype.add` on an insertion-ordered set. */
  function Added<T(==)>(keys: seq<T>, k: T): (r: seq<T>)
    ensures k in r && forall x :: x in keys ==> x in r
    ensures forall x :: x in r ==> x in keys || x == k
    ensures k in keys ==> r == keys
    ensures keys <= r && |r| <= |keys| + 1
    ensures NoDuplicates(keys) ==> NoDuplicates(r)
  {
    if k in keys then keys else keys + [k]
  }

  /** The proxy `tokens`: the original table as its target, and the overrides
      and key set it shares with the accessor. The member functions are its
      traps. */
  datatype TokenView = TokenView(
    target: map<PropertyKey, TokenValue>,
    overrides: map<string, TokenValue>,
    allKeys: seq<PropertyKey>)
  {
    /** The accessor's invariant: the key set is duplicate-free and holds
        exactly the original keys and the names of the overridden or created
        tokens. */
    ghost predicate Valid() {
      NoDuplicates(allKeys)
      && (forall k :: k in target ==> k in allKeys)
      && (forall n :: n in overrides ==> Name(n) in allKeys)
      && (forall k :: k in allKeys ==> k in target || (k.Name? && k.name in overrides))
    }

    /** `Reflect.get(target, p)`: the table has no prototype, so a missing key
        reads as undefined. */
    function Original(p: PropertyKey): (r: TokenValue)
      ensures p !in target ==> r.Undefined?
    {
      if p in target then target[p] else Undefined
    }

    /** The `get` trap. */
    function Get(p: PropertyKey): (r: TokenValue)
      ensures p.Symbol? ==> r.Undefined?
      ensures p.Name? && p.name in overrides && !Nullish(overrides[p.name]) ==> r == overrides[p.name]
      ensures p.Name? && (p.name !in overrides || Nullish(overrides[p.name])) ==> r == Original(p)
    {
      if !p.Name? then Undefined
      else
        var o := if p.name in overrides then overrides[p.name] else Undefined;
        if Nullish(o) then Original(p) else o
    }

    /** The `set` trap always throws. */
    function Set(p: PropertyKey, v: TokenValue): (r: Outcome<bool>)
      ensures r == Error(SetRejected)
    {
      Error(SetRejected)
    }

    /** The `has` trap. */
    function Has(p: PropertyKey): (r: bool)
      ensures r <==> p.Name? && exists i :: 0 <= i < |allKeys| && allKeys[i] == p
    {
      p.Name? && p in allKeys
    }

    /** The `ownKeys` trap (and `enumerate`): a copy of the key set, in
        insertion order. */
    function OwnKeys(): (r: seq<PropertyKey>)
      ensures |r| == |allKeys| && forall i :: 0 <= i < |r| ==> r[i] == allKeys[i]
    {
      allKeys
    }

    /** The `getOwnPropertyDescriptor` trap: the table's own descriptor if it
        has one, a made-up enumerable and configurable one for an
        overridden name, otherwise none. */
    function GetOwnPropertyDescriptor(p: PropertyKey): (r: Option<Descriptor>)
      ensures p in target ==> r == Some(TargetDescriptor(p))
      ensures p !in target && p.Name? && p.name in overrides ==> r == Some(CreatedDescriptor(true, true))
      ensures r.None? <==> p !in target && !(p.Name? && p.name in overrides)
    {
      if p in target then Some(TargetDescriptor(p))
      else if p.Name? && p.name in overrides then Some(CreatedDescriptor(true, true))
      else None
    }
  }

  /** The view right after construction: no overrides, and the key set is the
      table's own names followed by its symbols. */
  function InitialView(target: map<PropertyKey, TokenValue>, keyOrder: seq<PropertyKey>): (r: TokenView)
    requires NoDuplicates(keyOrder) && forall k :: k in target <==> k in keyOrder
    ensures r.Valid() && r.overrides == map[]
    ensures r.target == target && r.allKeys == keyOrder
  {
    TokenView(target, map[], keyOrder)
  }

  /** `setToken(name, value)`. */
  function SetTokenView(v: TokenView, name: string, value: TokenValue): (r: TokenView)
    ensures r.target == v.target
  {
    v.(overrides := v.overrides[name := value], allKeys := Added(v.allKeys, Name(name)))
  }

  /** `resetToken(name)`. */
  function ResetTokenView(v: TokenView, name: string): (r: TokenView)
    ensures r.target == v.target
  {
    var overrides := v.overrides - {name};
    if Name(name) !in v.target then v.(overrides := overrides, allKeys := RemoveAll(v.allKeys, Name(name)))
    else v.(overrides := overrides)
  }

  /** `setToken` keeps the accessor's invariant. */
  lemma SetTokenKeepsValid(v: TokenView, name: string, value: TokenValue)
    requires v.Valid()
    ensures SetTokenView(v, name, value).Valid()
  {
  }

  /** `resetToken` keeps the accessor's invariant: it never removes an
      original key, and it removes a created name together with its
      override. */
  lemma ResetTokenKeepsValid(v: TokenView, name: string)
    requires v.Valid()
    ensures ResetTokenView(v, name).Valid()
  {
    if Name(name) !in v.target {
      RemoveAllKeepsNoDuplicates(v.allKeys, Name(name));
      var r := ResetTokenView(v, name);
      forall k | k in v.target ensures k in r.allKeys {
        assert k in v.allKeys;
      }
    }
  }

  // ---------------------------------------------------------------------
  // What the traps and the mutators guarantee
  // ---------------------------------------------------------------------

  /** `has` holds exactly for the string keys that `ownKeys` lists, and in a
      valid view a key has a descriptor exactly when it is listed. */
  lemma HasAgreesWithOwnKeys(v: TokenView, p: PropertyKey)
    requires v.Valid()
    ensures v.Has(p) <==> p.Name? && p in v.OwnKeys()
    ensures v.GetOwnPropertyDescriptor(p).Some? <==> p in v.OwnKeys()
  {
  }

  /** Enumeration yields each original key and each overridden name once, and
      nothing else. */
  lemma OwnKeysAreTokens(v: TokenView)
    requires v.Valid()
    ensures NoDuplicates(v.OwnKeys())
    ensures forall k :: k in v.OwnKeys() <==> k in v.target || (k.Name? && k.name in v.overrides)
  {
  }

  /** After `setToken(name, value)` the name is a key, reading it gives the
      value unless the value is null or undefined (then the original shows
      through), and every other key reads and tests as before. */
  lemma GetAfterSetToken(v: TokenView, name: string, value: TokenValue)
    ensures var r := SetTokenView(v, name, value);
      r.Has(Name(name))
      && (!Nullish(value) ==> r.Get(Name(name)) == value)
      && (Nullish(value) ==> r.Get(Name(name)) == v.Original(Name(name)))
      && forall p :: p != Name(name) ==> r.Get(p) == v.Get(p) && r.Has(p) == v.Has(p)
  {
    var r := SetTokenView(v, name, value);
    forall p | p != Name(name)
      ensures r.Get(p) == v.Get(p) && r.Has(p) == v.Has(p)
    {
      assert p in r.allKeys <==> p in v.allKeys;
    }
  }

  /** After `resetToken(name)` no override is left for the name, it reads as
      the original value, and it stays a key exactly when it is an original
      one: an overridden token reverts, a created one disappears. */
  lemma ResetRevertsOrEvicts(v: TokenView, name: string)
    requires v.Valid()
    ensures var r := ResetTokenView(v, name);
      name !in r.overrides
      && r.Get(Name(name)) == v.Original(Name(name))
      && (r.Has(Name(name)) <==> Name(name) in v.target)
  {
  }

  /** `resetToken(name)` leaves every other key reading and testing as
      before. */
  lemma ResetKeepsOtherKeys(v: TokenView, name: string, p: PropertyKey)
    requires p != Name(name)
    ensures ResetTokenView(v, name).Get(p) == v.Get(p)
    ensures ResetTokenView(v, name).Has(p) == v.Has(p)
  {
    var r := ResetTokenView(v, name);
    if Name(name) !in v.target && p in v.allKeys {
      assert p in r.allKeys;
    }
  }

  /** A second reset changes nothing. */
  lemma ResetIdempotent(v: TokenView, name: string)
    ensures ResetTokenView(ResetTokenView(v, name), name) == ResetTokenView(v, name)
  {
    var r := ResetTokenView(v, name);
    assert r.overrides - {name} == r.overrides;
  }

  /** Resetting after a `setToken` is resetting without it. */
  lemma SetThenReset(v: TokenView, name: string, value: TokenValue)
    requires v.Valid()
    ensures ResetTokenView(SetTokenView(v, name, value), name) == ResetTokenView(v, name)
  {
    var k := Name(name);
    var s := SetTokenView(v, name, value);
    assert s.overrides - {name} == v.overrides - {name};
    if k in v.target {
      assert k in v.allKeys;
      assert s.allKeys == v.allKeys;
    } else if k !in v.allKeys {
      RemoveAllAppended(v.allKeys, k);
      assert RemoveAll(s.allKeys, k) == v.allKeys;
    }
  }

  /** For a token that was not overridden, `setToken` followed by
      `resetToken` restores the view exactly. */
  lemma SetThenResetRestores(v: TokenView, name: string, value: TokenValue)
    requires v.Valid() && name !in v.overrides
    ensures ResetTokenView(SetTokenView(v, name, value), name) == v
  {
    var k := Name(name);
    var s := SetTokenView(v, name, value);
    var r := ResetTokenView(s, name);
    assert r.overrides == v.overrides by {
      assert s.overrides - {name} == v.overrides;
    }
    assert r.allKeys == v.allKeys by {
      if k in v.target {
        assert k in v.allKeys;
      } else {
        assert k !in v.allKeys;
        RemoveAllAppended(v.allKeys, k);
      }
    }
  }

  // ---------------------------------------------------------------------
  // CSS custom-property names
  // ---------------------------------------------------------------------

  /** `.replace(/\_/g, '-')`. */
  function DashForUnderscore(s: string): (r: string)
    ensures |r| == |s|
    ensures forall i :: 0 <= i < |s| ==> r[i] == if s[i] == '_' then '-' else s[i]
  {
    if s == [] then [] else [if s[0] == '_' then '-' else s[0]] + DashForUnderscore(s[1..])
  }

  /** The token name lower-cased with every underscore turned into a dash. */
  function Mangled(tokenName: string): (r: string)
    ensures |r| == |tokenName|
    ensures forall i :: 0 <= i < |tokenName| ==> r[i] == if tokenName[i] == '_' then '-' else LowerChar(tokenName[i])
  {
    DashForUnderscore(ToLower(tokenName))
  }

  /** The name `getCssPropertyName` computes: `--`, then the mangled token
      name. */
  function CssPropertyName(tokenName: string): (r: string)
    ensures |r| == |tokenName| + 2 && r[..2] == "--"
    ensures forall i :: 0 <= i < |tokenName| ==> r[i + 2] == Mangled(tokenName)[i]
  {
    "--" + Mangled(tokenName)
  }

  /** Character by character: an underscore becomes a dash, an upper-case
      letter its lower-case form, anything else stays. */
  lemma CssPropertyNameAt(tokenName: string, i: nat)
    requires i < |tokenName|
    ensures CssPropertyName(tokenName)[i + 2] ==
      if tokenName[i] == '_' then '-' else LowerChar(tokenName[i])
  {
  }

  /** The mangling works character by character, so it distributes over
      concatenation. */
  lemma MangledAppend(a: string, b: string)
    ensures Mangled(a + b) == Mangled(a) + Mangled(b)
  {
    var l, r := Mangled(a + b), Mangled(a) + Mangled(b);
    forall i | 0 <= i < |l| ensures l[i] == r[i] {
      if i < |a| {
        assert (a + b)[i] == a[i];
      } else {
        assert (a + b)[i] == b[i - |a|];
      }
    }
  }

  /** The documented form of token names: upper-case letters, digits and
      underscores. */
  predicate UpperSnakeCase(s: string) {
    forall i :: 0 <= i < |s| ==> IsAsciiUpper(s[i]) || ('0' <= s[i] <= '9') || s[i] == '_'
  }

  /** Two characters of upper-snake-case names that mangle alike are equal. */
  lemma UpperSnakeCharMangled(c: char, d: char)
    requires IsAsciiUpper(c) || ('0' <= c <= '9') || c == '_'
    requires IsAsciiUpper(d) || ('0' <= d <= '9') || d == '_'
    requires (if c == '_' then '-' else LowerChar(c)) == (if d == '_' then '-' else LowerChar(d))
    ensures c == d
  {
  }

  /** On such names the mangling is injective, so distinct tokens get
      distinct CSS properties. */
  lemma CssPropertyNameInjective(a: string, b: string)
    requires UpperSnakeCase(a) && UpperSnakeCase(b)
    requires CssPropertyName(a) == CssPropertyName(b)
    ensures a == b
  {
    assert |a| == |b|;
    forall i | 0 <= i < |a| ensures a[i] == b[i] {
      CssPropertyNameAt(a, i);
      CssPropertyNameAt(b, i);
      UpperSnakeCharMangled(a[i], b[i]);
    }
  }

  /** The module-level cache, by the source indexed with brackets, hence a
      lookup of the Map object's properties: its own ones, set by earlier
      calls, and the ones it inherits. A read is a cached string or an
      inherited member. */
  datatype CacheRead = CachedString(s: string) | InheritedMember(member: string)

  /** The truthy properties a `Map` inherits from `Map.prototype` and
      `Object.prototype`: their methods, and `__proto__`, which reads the
      prototype object itself. */
  const InheritedMembers: set<string> := {
    "constructor", "get", "set", "has", "delete", "clear", "entries", "forEach", "keys", "values",
    "hasOwnProperty", "isPrototypeOf", "propertyIsEnumerable", "toString", "toLocaleString", "valueOf",
    "__defineGetter__", "__defineSetter__", "__lookupGetter__", "__lookupSetter__", "__proto__"
  }

  /** `getCssPropertyName` as written: a non-empty own property set earlier
      is returned, and so is an inherited member, which is truthy; any other
      name is computed. */
  function GetCssPropertyNameAsWritten(entries: map<string, string>, tokenName: string): (r: CacheRead)
    ensures tokenName in entries && entries[tokenName] != "" ==> r == CachedString(entries[tokenName])
    ensures tokenName !in entries && tokenName !in InheritedMembers ==> r == CachedString(CssPropertyName(tokenName))
    ensures tokenName !in entries && tokenName in InheritedMembers ==> r == InheritedMember(tokenName)
  {
    if tokenName in entries && entries[tokenName] != "" then CachedString(entries[tokenName])
    else if tokenName !in entries && tokenName in InheritedMembers then InheritedMember(tokenName)
    else CachedString(CssPropertyName(tokenName))
  }

  /** A token named `constructor` gets the inherited `Map` constructor back
      instead of a CSS property name. */
  lemma CssPropertyNameOfConstructor()
    ensures GetCssPropertyNameAsWritten(map[], "constructor") == InheritedMember("constructor")
    ensures GetCssPropertyNameAsWritten(map[], "constructor") != CachedString(CssPropertyName("constructor"))
  {
  }

  /** The cache as intended: a map from token names to their CSS names. */
  class CssPropertyNameCache {
    var entries: map<string, string>

    /** Every cached name is the mangled token name. */
    ghost predicate Valid()
      reads this
    {
      forall t :: t in entries ==> entries[t] == CssPropertyName(t)
    }

    constructor()
      ensures entries == map[] && Valid()
    {
      entries := map[];
    }

    /** `getCssPropertyName(tokenName)` over the cache: the mangled name,
        computed and stored on a miss, reused on a hit. */
    method GetCssPropertyName(tokenName: string) returns (r: string)
      requires Valid()
      modifies this
      ensures r == CssPropertyName(tokenName)
      ensures entries == old(entries)[tokenName := r]
      ensures tokenName in old(entries) ==> entries == old(entries)
      ensures Valid()
    {
      var cached := if tokenName in entries then entries[tokenName] else "";
      if cached == "" {
        cached := CssPropertyName(tokenName);
        entries := entries[tokenName := cached];
      }
      r := cached;
    }
  }

  // ---------------------------------------------------------------------
  // The accessor
  // ---------------------------------------------------------------------

  class FluidDesignTokenAccessor {
    /** `originalTokens`: the frozen design-token module. */
    const originalTokens: map<PropertyKey, TokenValue>
    /** `_overrides` and `_allKeys`. */
    var overrides: map<string, TokenValue>
    var allKeys: seq<PropertyKey>
    /** The cache shared by every accessor. */
    const cache: CssPropertyNameCache

    /** The proxy `tokens`, which reads the live overrides and keys. */
    function Tokens(): TokenView
      reads this
    {
      TokenView(originalTokens, overrides, allKeys)
    }

    ghost predicate Valid()
      reads this
    {
      Tokens().Valid()
    }

    /** `keyOrder` lists the table's own property names, then its symbols. */
    constructor(originals: map<PropertyKey, TokenValue>, keyOrder: seq<PropertyKey>, sharedCache: CssPropertyNameCache)
      requires NoDuplicates(keyOrder) && forall k :: k in originals <==> k in keyOrder
      ensures Tokens() == InitialView(originals, keyOrder) && cache == sharedCache
      ensures Valid()
    {
      originalTokens := originals;
      overrides := map[];
      allKeys := keyOrder;
      cache := sharedCache;
    }

    method SetToken(name: string, value: TokenValue)
      modifies this
      ensures Tokens() == SetTokenView(old(Tokens()), name, value)
      ensures old(Valid()) ==> Valid()
    {
      if Valid() {
        SetTokenKeepsValid(Tokens(), name, value);
      }
      overrides := overrides[name := value];
      if Name(name) !in allKeys {
        allKeys := allKeys + [Name(name)];
      }
    }

    method ResetToken(name: string)
      modifies this
      ensures Tokens() == ResetTokenView(old(Tokens()), name)
      ensures old(Valid()) ==> Valid()
    {
      if Valid() {
        ResetTokenKeepsValid(Tokens(), name);
      }
      overrides := overrides - {name};
      if Name(name) !in originalTokens {
        allKeys := RemoveAll(allKeys, Name(name));
      }
    }

    method GetCssPropertyName(tokenName: string) returns (r: string)
      requires cache.Valid()
      modifies cache
      ensures r == CssPropertyName(tokenName)
      ensures cache.entries == old(cache.entries)[tokenName := r] && cache.Valid()
    {
      r := cache.GetCssPropertyName(tokenName);
    }
  }
}
