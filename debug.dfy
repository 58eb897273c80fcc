/** The debug container of the utilities: a dictionary whose keys are
    resolved against a stack of open levels, so that values written inside
    nested `cd(name)` blocks land under dotted paths such as `"a.b.x"`.
    The null variant drops item writes. */
module DebugContainers {
  import opened Wrappers

  /** A dictionary key: an `int` or a `str`. */
  datatype Key = IntKey(i: int) | StrKey(s: string)

  predicate IsDigit(c: char)
  {
    '0' <= c <= '9'
  }

  function DigitChar(d: nat): (c: char)
    requires d < 10
    ensures IsDigit(c) && (c as int) - ('0' as int) == d
  {
    (('0' as int) + d) as char
  }

  /** Decimal digits of a natural number, most significant first. */
  function NatString(n: nat): (s: string)
    ensures |s| > 0 && forall k :: 0 <= k < |s| ==> IsDigit(s[k])
  {
    if n < 10 then [DigitChar(n)] else NatString(n / 10) + [DigitChar(n % 10)]
  }

  /** Python's `str(n)` for an `int`. */
  function IntString(n: int): (s: string)
    ensures |s| > 0 && forall k :: 0 <= k < |s| ==> IsDigit(s[k]) || (k == 0 && s[k] == '-')
    ensures (s[0] == '-') <==> n < 0
  {
    if n < 0 then "-" + NatString(-n) else NatString(n)
  }

  /** `str(key)`. */
  function KeyString(key: Key): string
  {
    match key
    case IntKey(i) => IntString(i)
    case StrKey(s) => s
  }

  /** `'.'.join(parts)`. */
  function JoinDot(parts: seq<string>): (s: string)
    ensures |parts| == 1 ==> s == parts[0]
    ensures parts == [] ==> s == ""
  {
    if parts == [] then ""
    else if |parts| == 1 then parts[0]
    else JoinDot(parts[..|parts| - 1]) + "." + parts[|parts| - 1]
  }

  /** `_getkey(key)`: an `int` key stays as it is while no level is open;
      every other key becomes the dotted path of the open levels and `str(key)`. */
  function ResolveKey(levels: seq<string>, key: Key): (r: Key)
    ensures r.IntKey? <==> key.IntKey? && levels == []
  {
    if key.IntKey? && levels == [] then key else StrKey(JoinDot(levels + [KeyString(key)]))
  }

  /** With no level open, every key resolves to itself. */
  lemma ResolveWithoutLevels(key: Key)
    ensures ResolveKey([], key) == key
  {
    assert [] + [KeyString(key)] == [KeyString(key)];
  }

  /** With levels open, the key is the level path, a dot, and `str(key)`. */
  lemma ResolveUnderLevels(levels: seq<string>, key: Key)
    requires levels != []
    ensures ResolveKey(levels, key) == StrKey(JoinDot(levels) + "." + KeyString(key))
  {
    var parts := levels + [KeyString(key)];
    assert parts[..|parts| - 1] == levels;
  }

  /** `str(n)` never holds a dot, so an `int` key adds exactly one path component. */
  lemma IntStringHasNoDot(n: int)
    ensures '.' !in IntString(n)
  {
    var s := IntString(n);
    forall k | 0 <= k < |s|
      ensures s[k] != '.'
    {
      assert IsDigit(s[k]) || s[k] == '-';
    }
  }

  /** Resolving an already resolved key again moves it when a level is open:
      the path gains the level prefix a second time. */
  lemma ResolveTwiceMoves(levels: seq<string>, key: Key)
    requires levels != []
    ensures ResolveKey(levels, ResolveKey(levels, key)) != ResolveKey(levels, key)
  {
    var once := ResolveKey(levels, key);
    ResolveUnderLevels(levels, key);
    ResolveUnderLevels(levels, once);
    assert |ResolveKey(levels, once).s| > |once.s|;
  }

  /** Concrete instance: inside `cd('a')`, the key `'x'` is looked up as
      `'a.x'` but a fresh container for it is stored as `'a.a.x'`. */
  lemma ResolveTwiceExample()
    ensures ResolveKey(["a"], StrKey("x")) == StrKey("a.x")
    ensures ResolveKey(["a"], ResolveKey(["a"], StrKey("x"))) == StrKey("a.a.x")
  {
    ResolveUnderLevels(["a"], StrKey("x"));
    ResolveUnderLevels(["a"], StrKey("a.x"));
  }

  /** What the container holds under a key: a stored value (identified by a
      number) or a nested container. */
  datatype Entry = Item(v: int) | Sub(node: Container)

  /** The failure of leaving a level: `pop` on an empty stack, or the
      assertion that the popped name is the one being left. */
  datatype ExitError = EmptyStack | LabelMismatch(popped: string)

  class Container {
    var levels: seq<string>
    var data: map<Key, Entry>
    /** True for `_NullDebug`, whose item writes do nothing. */
    const isNull: bool

    constructor (isNull: bool)
      ensures levels == [] && data == map[] && this.isNull == isNull
    {
      levels := [];
      data := map[];
      this.isNull := isNull;
    }

    /** Entering `cd(name)` pushes the name. */
    method Enter(name: string)
      modifies this
      ensures levels == old(levels) + [name] && data == old(data)
    {
      levels := levels + [name];
    }

    /** Leaving `cd(name)` pops the top level, then asserts it was `name`. */
    method Exit(name: string) returns (r: Result<(), ExitError>)
      modifies this
      ensures data == old(data)
      ensures old(levels) == [] ==> levels == [] && r == Failure(EmptyStack)
      ensures old(levels) != [] ==>
        levels == old(levels)[..|old(levels)| - 1] &&
        (r.Success? <==> old(levels)[|old(levels)| - 1] == name) &&
        (r.Failure? ==> r.error == LabelMismatch(old(levels)[|old(levels)| - 1]))
    {
      if levels == [] {
        return Failure(EmptyStack);
      }
      var top := levels[|levels| - 1];
      levels := levels[..|levels| - 1];
      if top == name {
        r := Success(());
      } else {
        r := Failure(LabelMismatch(top));
      }
    }

    /** A `cd(name)` block around nothing: the stack is as before and the
      assertion holds (last in, first out). */
    method Cd(name: string) returns (r: Result<(), ExitError>)
      modifies this
      ensures levels == old(levels) && data == old(data) && r.Success?
    {
      Enter(name);
      r := Exit(name);
    }

    /** `d[key] = val`: stores under the resolved key; `_NullDebug` drops it. */
    method SetItem(key: Key, val: Entry)
      modifies this
      ensures levels == old(levels)
      ensures data == if isNull then old(data) else old(data)[ResolveKey(levels, key) := val]
    {
      if !isNull {
        data := data[ResolveKey(levels, key) := val];
      }
    }

    /** `d.result(val)`: stores under the level path itself, bypassing the
      item write, so also on `_NullDebug`; returns `val`. */
    method Result(val: Entry) returns (r: Entry)
      modifies this
      ensures levels == old(levels) && r == val
      ensures data == old(data)[StrKey(JoinDot(levels)) := val]
    {
      data := data[StrKey(JoinDot(levels)) := val];
      r := val;
    }

    /** `d[key]` as written: a missing key gets a fresh container of the
      same kind, stored through the item write with the ALREADY resolved key,
      which is resolved a second time. */
    method GetItem(key: Key) returns (val: Entry)
      modifies this
      ensures levels == old(levels)
      ensures ResolveKey(levels, key) in old(data) ==>
        val == old(data)[ResolveKey(levels, key)] && data == old(data)
      ensures ResolveKey(levels, key) !in old(data) ==>
        val.Sub? && fresh(val.node) && val.node.isNull == isNull &&
        val.node.levels == [] && val.node.data == map[] &&
        data == if isNull then old(data)
                else old(data)[ResolveKey(levels, ResolveKey(levels, key)) := val]
    {
      var k := ResolveKey(levels, key);
      if k in data {
        val := data[k];
      } else {
        var c := new Container(isNull);
        val := Sub(c);
        SetItem(k, val);
      }
    }

    /** `d[key]` as intended: a missing key's fresh container is stored under
      the key it was looked up by, so that a second lookup finds it. */
    method GetItemIntended(key: Key) returns (val: Entry)
      modifies this
      ensures levels == old(levels)
      ensures ResolveKey(levels, key) in old(data) ==>
        val == old(data)[ResolveKey(levels, key)] && data == old(data)
      ensures ResolveKey(levels, key) !in old(data) ==>
        val.Sub? && fresh(val.node) && val.node.isNull == isNull &&
        val.node.levels == [] && val.node.data == map[] &&
        data == if isNull then old(data) else old(data)[ResolveKey(levels, key) := val]
      ensures !isNull ==> ResolveKey(levels, key) in data && data[ResolveKey(levels, key)] == val
    {
      var k := ResolveKey(levels, key);
      if k in data {
        val := data[k];
      } else {
        var c := new Container(isNull);
        val := Sub(c);
        if !isNull {
          data := data[k := val];
        }
      }
    }
  }
}
