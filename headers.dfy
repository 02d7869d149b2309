/**
 * The response-header collection the middleware works on.
 *
 * Starlette keeps a response's headers as a raw list of (name, value) pairs
 * whose names are stored lower-cased; its MutableHeaders view matches names
 * case-insensitively by lower-casing the key it is given and comparing it
 * with the stored names, first match first. `setdefault(key, value)` returns
 * the stored value when the name is present and otherwise appends the pair.
 */
module Headers {
  import opened Wrappers

  /** One entry of the raw header list. */
  datatype Header = Header(name: string, value: string)

  /** ASCII lower-casing of one character. */
  function LowerChar(c: char): char
  {
    if 'A' <= c <= 'Z' then (c as int + 32) as char else c
  }

  predicate IsLower(s: string)
  {
    forall i | 0 <= i < |s| :: !('A' <= s[i] <= 'Z')
  }

  /** `key.lower()` on a header name. */
  function Lower(s: string): (r: string)
    ensures |r| == |s|
  {
    seq(|s|, i requires 0 <= i < |s| => LowerChar(s[i]))
  }

  /** Lower-casing yields a lower-case name and leaves a lower-case name alone. */
  lemma LowerIsLower(s: string)
    ensures IsLower(Lower(s))
    ensures IsLower(s) ==> Lower(s) == s
  {
  }

  /** A table whose names are lower-cased, as the raw list stores them. */
  function Lowered(t: seq<Header>): (r: seq<Header>)
    ensures StoredNames(r)
  {
    assert forall i | 0 <= i < |t| :: IsLower(Lower(t[i].name)) by {
      forall i | 0 <= i < |t| ensures IsLower(Lower(t[i].name)) {
        LowerIsLower(t[i].name);
      }
    }
    seq(|t|, i requires 0 <= i < |t| => Header(Lower(t[i].name), t[i].value))
  }

  /** Every stored name is lower-case: what Starlette keeps of its raw list. */
  predicate StoredNames(hs: seq<Header>)
  {
    forall i | 0 <= i < |hs| :: IsLower(hs[i].name)
  }

  /** No name occurs twice. */
  predicate DistinctNames(hs: seq<Header>)
  {
    forall i, j | 0 <= i < j < |hs| :: hs[i].name != hs[j].name
  }

  /** The value of the first entry called `name`, if there is one. */
  function Lookup(hs: seq<Header>, name: string): Option<string>
  {
    if hs == [] then None
    else if hs[0].name == name then Some(hs[0].value)
    else Lookup(hs[1..], name)
  }

  /** A name is found exactly when some entry carries it, and what is found is stored under it. */
  lemma {:induction false} LookupFound(hs: seq<Header>, name: string)
    ensures Lookup(hs, name).None? <==> forall i | 0 <= i < |hs| :: hs[i].name != name
    ensures Lookup(hs, name).Some? ==> Header(name, Lookup(hs, name).value) in hs
  {
    if hs != [] {
      LookupFound(hs[1..], name);
      assert forall i | 1 <= i < |hs| :: hs[i] == hs[1..][i - 1];
    }
  }

  lemma {:induction false} LookupConcat(a: seq<Header>, b: seq<Header>, name: string)
    ensures Lookup(a + b, name) == if Lookup(a, name).Some? then Lookup(a, name) else Lookup(b, name)
  {
    if a != [] {
      assert (a + b)[1..] == a[1..] + b;
      LookupConcat(a[1..], b, name);
    } else {
      assert a + b == b;
    }
  }

  /** The header list after `setdefault(key, value)`. */
  function WithDefault(hs: seq<Header>, key: string, value: string): seq<Header>
  {
    if Lookup(hs, Lower(key)).Some? then hs else hs + [Header(Lower(key), value)]
  }

  /** The value `setdefault(key, value)` returns. */
  function DefaultedValue(hs: seq<Header>, key: string, value: string): string
  {
    match Lookup(hs, Lower(key))
    case Some(v) => v
    case None => value
  }

  /**
   * `setdefault` keeps every entry, adds at most one, leaves the name with
   * its old value if it had one and with `value` otherwise, and changes no
   * other name.
   */
  lemma WithDefaultLookup(hs: seq<Header>, key: string, value: string)
    ensures hs <= WithDefault(hs, key, value) && |WithDefault(hs, key, value)| <= |hs| + 1
    ensures Lookup(WithDefault(hs, key, value), Lower(key)) == Some(DefaultedValue(hs, key, value))
    ensures Lookup(hs, Lower(key)).Some? ==> DefaultedValue(hs, key, value) == Lookup(hs, Lower(key)).value
    ensures Lookup(hs, Lower(key)).None? ==> DefaultedValue(hs, key, value) == value
    ensures forall n | n != Lower(key) :: Lookup(WithDefault(hs, key, value), n) == Lookup(hs, n)
    ensures StoredNames(hs) ==> StoredNames(WithDefault(hs, key, value))
    ensures DistinctNames(hs) ==> DistinctNames(WithDefault(hs, key, value))
  {
    var k := Lower(key);
    LowerIsLower(key);
    if Lookup(hs, k).None? {
      LookupFound(hs, k);
      forall n ensures Lookup(hs + [Header(k, value)], n) == if n == k then Some(value) else Lookup(hs, n) {
        LookupConcat(hs, [Header(k, value)], n);
      }
    }
  }

  /** The list after one `setdefault` per table entry, in table order. */
  function ApplyDefaults(hs: seq<Header>, t: seq<Header>): seq<Header>
    decreases |t|
  {
    if t == [] then hs
    else ApplyDefaults(WithDefault(hs, t[0].name, t[0].value), t[1..])
  }

  /** Applying a table and then one more entry is applying the longer table. */
  lemma {:induction false} ApplyDefaultsSnoc(hs: seq<Header>, t: seq<Header>, e: Header)
    ensures ApplyDefaults(hs, t + [e]) == WithDefault(ApplyDefaults(hs, t), e.name, e.value)
    decreases |t|
  {
    if t == [] {
      assert (t + [e])[1..] == [];
    } else {
      assert (t + [e])[1..] == t[1..] + [e];
      ApplyDefaultsSnoc(WithDefault(hs, t[0].name, t[0].value), t[1..], e);
    }
  }

  lemma LoweredTail(t: seq<Header>)
    requires t != []
    ensures Lowered(t) == [Header(Lower(t[0].name), t[0].value)] + Lowered(t[1..])
  {
    assert Lowered(t) == [Lowered(t)[0]] + Lowered(t)[1..];
    assert Lowered(t)[1..] == Lowered(t[1..]);
  }

  /**
   * What a name maps to after the defaults: the value already there if the
   * name was present, otherwise the value of the first table entry with that
   * name, otherwise still nothing.
   */
  lemma {:induction false} ApplyDefaultsLookup(hs: seq<Header>, t: seq<Header>, n: string)
    ensures Lookup(ApplyDefaults(hs, t), n) ==
            if Lookup(hs, n).Some? then Lookup(hs, n) else Lookup(Lowered(t), n)
    decreases |t|
  {
    if t != [] {
      var hs' := WithDefault(hs, t[0].name, t[0].value);
      WithDefaultLookup(hs, t[0].name, t[0].value);
      ApplyDefaultsLookup(hs', t[1..], n);
      LoweredTail(t);
    }
  }

  /**
   * The defaults only append: the old list is a prefix of the new one, and
   * every appended entry carries a table name that was absent before, with
   * the value of the first table entry of that name.
   */
  lemma {:induction false} ApplyDefaultsAppends(hs: seq<Header>, t: seq<Header>)
    ensures hs <= ApplyDefaults(hs, t)
    ensures |ApplyDefaults(hs, t)| <= |hs| + |t|
    ensures forall i | |hs| <= i < |ApplyDefaults(hs, t)| ::
              Lookup(hs, ApplyDefaults(hs, t)[i].name).None? &&
              Lookup(Lowered(t), ApplyDefaults(hs, t)[i].name) == Some(ApplyDefaults(hs, t)[i].value)
    decreases |t|
  {
    if t != [] {
      var k := Lower(t[0].name);
      var hs' := WithDefault(hs, t[0].name, t[0].value);
      var r := ApplyDefaults(hs, t);
      WithDefaultLookup(hs, t[0].name, t[0].value);
      ApplyDefaultsAppends(hs', t[1..]);
      LoweredTail(t);
      forall i | |hs| <= i < |r|
        ensures Lookup(hs, r[i].name).None? && Lookup(Lowered(t), r[i].name) == Some(r[i].value)
      {
        if i < |hs'| {
          assert hs' == hs + [Header(k, t[0].value)];
          assert r[i] == Header(k, t[0].value);
        } else {
          var n := r[i].name;
          assert Lookup(hs', n).None?;
          LookupFound(hs, n);
          assert n != k;
          LookupConcat([Header(k, t[0].value)], Lowered(t[1..]), n);
        }
      }
    }
  }

  /** The defaults keep the raw list's invariants. */
  lemma {:induction false} ApplyDefaultsKeepsInvariants(hs: seq<Header>, t: seq<Header>)
    ensures StoredNames(hs) ==> StoredNames(ApplyDefaults(hs, t))
    ensures DistinctNames(hs) ==> DistinctNames(ApplyDefaults(hs, t))
    decreases |t|
  {
    if t != [] {
      WithDefaultLookup(hs, t[0].name, t[0].value);
      ApplyDefaultsKeepsInvariants(WithDefault(hs, t[0].name, t[0].value), t[1..]);
    }
  }

  /** After the defaults every table name is present. */
  lemma ApplyDefaultsPresent(hs: seq<Header>, t: seq<Header>)
    ensures forall i | 0 <= i < |t| :: Lookup(ApplyDefaults(hs, t), Lower(t[i].name)).Some?
  {
    forall i | 0 <= i < |t| ensures Lookup(ApplyDefaults(hs, t), Lower(t[i].name)).Some? {
      ApplyDefaultsLookup(hs, t, Lower(t[i].name));
      LookupFound(Lowered(t), Lower(t[i].name));
      assert Lowered(t)[i].name == Lower(t[i].name);
    }
  }

  /** A table whose names are all present already changes nothing. */
  lemma {:induction false} ApplyDefaultsWhenPresent(hs: seq<Header>, t: seq<Header>)
    requires forall i | 0 <= i < |t| :: Lookup(hs, Lower(t[i].name)).Some?
    ensures ApplyDefaults(hs, t) == hs
    decreases |t|
  {
    if t != [] {
      assert Lookup(hs, Lower(t[0].name)).Some?;
      assert forall i | 0 <= i < |t[1..]| :: Lookup(hs, Lower(t[1..][i].name)).Some? by {
        forall i | 0 <= i < |t[1..]| ensures Lookup(hs, Lower(t[1..][i].name)).Some? {
          assert t[1..][i] == t[i + 1];
        }
      }
      ApplyDefaultsWhenPresent(hs, t[1..]);
    }
  }

  /** Running the defaults twice gives the same list as running them once. */
  lemma ApplyDefaultsIdempotent(hs: seq<Header>, t: seq<Header>)
    ensures ApplyDefaults(ApplyDefaults(hs, t), t) == ApplyDefaults(hs, t)
  {
    ApplyDefaultsPresent(hs, t);
    ApplyDefaultsWhenPresent(ApplyDefaults(hs, t), t);
  }

  /** With distinct names, the first table entry of a name is that entry. */
  lemma {:induction false} LookupDistinctTable(t: seq<Header>, i: nat)
    requires DistinctNames(Lowered(t)) && i < |t|
    ensures Lookup(Lowered(t), Lower(t[i].name)) == Some(t[i].value)
    decreases |t|
  {
    LoweredTail(t);
    if i > 0 {
      assert Lowered(t)[0].name != Lowered(t)[i].name;
      assert DistinctNames(Lowered(t[1..])) by {
        forall a, b | 0 <= a < b < |t[1..]| ensures Lowered(t[1..])[a].name != Lowered(t[1..])[b].name {
          assert Lowered(t)[a + 1].name != Lowered(t)[b + 1].name;
        }
      }
      assert t[1..][i - 1] == t[i];
      LookupDistinctTable(t[1..], i - 1);
    }
  }

  /** Lower-casing the names of a joined table lower-cases each part. */
  lemma LoweredConcat(a: seq<Header>, b: seq<Header>)
    ensures Lowered(a + b) == Lowered(a) + Lowered(b)
  {
  }

  /**
   * When no name is shared between two tables, the order in which they are
   * applied does not change what any name maps to.
   */
  lemma ApplyDefaultsOrderIrrelevant(hs: seq<Header>, t1: seq<Header>, t2: seq<Header>, n: string)
    requires forall i, j | 0 <= i < |t1| && 0 <= j < |t2| :: Lower(t1[i].name) != Lower(t2[j].name)
    ensures Lookup(ApplyDefaults(hs, t1 + t2), n) == Lookup(ApplyDefaults(hs, t2 + t1), n)
  {
    ApplyDefaultsLookup(hs, t1 + t2, n);
    ApplyDefaultsLookup(hs, t2 + t1, n);
    LoweredConcat(t1, t2);
    LoweredConcat(t2, t1);
    LookupConcat(Lowered(t1), Lowered(t2), n);
    LookupConcat(Lowered(t2), Lowered(t1), n);
    LookupFound(Lowered(t1), n);
    LookupFound(Lowered(t2), n);
  }

  /**
   * A response as the middleware sees it: status, body and the raw header
   * list that `response.headers` mutates in place.
   */
  class Response {
    var status: int
    var body: string
    var rawHeaders: seq<Header>

    ghost predicate Valid()
      reads this
    {
      StoredNames(rawHeaders)
    }

    /** A response built by a handler; its header names are lower-cased on the way in. */
    constructor (status: int, body: string, headers: seq<Header>)
      ensures Valid()
      ensures this.status == status && this.body == body && rawHeaders == Lowered(headers)
    {
      this.status := status;
      this.body := body;
      rawHeaders := Lowered(headers);
    }

    /**
     * `headers.setdefault(key, value)`: keep the value stored under the
     * name if there is one, otherwise append the pair; return the value
     * the name now has.
     */
    method SetDefault(key: string, value: string) returns (current: string)
      requires Valid()
      modifies this`rawHeaders
      ensures Valid()
      ensures rawHeaders == WithDefault(old(rawHeaders), key, value)
      ensures current == DefaultedValue(old(rawHeaders), key, value)
    {
      WithDefaultLookup(rawHeaders, key, value);
      var k := Lower(key);
      var existing := Lookup(rawHeaders, k);
      if existing.Some? {
        current := existing.value;
      } else {
        rawHeaders := rawHeaders + [Header(k, value)];
        current := value;
      }
    }
  }
}
