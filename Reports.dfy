/** The size report of Converter.ts: `ComponentSize` and `ComponentReport`.

    A `ComponentReport` is a JavaScript object `Record<string, ComponentSize>`;
    its key order (insertion order) decides the order of the artifact lines
    and of the comment rows. It is modelled as a sequence of entries: `Lookup`
    is own-property access (`report[name]`, `undefined` being `None`; names
    inherited from `Object.prototype` read as absent), `Put` is an
    assignment `report[name] = size` or a spread `{...report, [name]: size}`,
    which keeps an existing key where it is and appends a new one. */
module Reports {
  import opened Wrappers

  /** Sizes in KB. Read back from an artifact, `js` and `css` may be any
      integers, so they are not `nat` here. */
  datatype ComponentSize = ComponentSize(js: int, css: int, total: int)

  datatype Entry = Entry(name: string, size: ComponentSize)

  type Report = seq<Entry>

  /** `Object.keys(report)`. */
  function Names(r: Report): (ns: seq<string>)
    ensures |ns| == |r| && forall i :: 0 <= i < |r| ==> ns[i] == r[i].name
  {
    if r == [] then [] else [r[0].name] + Names(r[1..])
  }

  /** An object never holds a key twice. */
  predicate UniqueNames(r: Report) {
    forall i, j :: 0 <= i < j < |r| ==> r[i].name != r[j].name
  }

  /** `report[name]`, with `None` for `undefined`. */
  function Lookup(r: Report, name: string): (o: Option<ComponentSize>)
    ensures o.None? <==> name !in Names(r)
    ensures o.Some? ==> Entry(name, o.value) in r
  {
    if r == [] then None
    else if r[0].name == name then Some(r[0].size)
    else Lookup(r[1..], name)
  }

  /** `report[name] = size`: replaces the value of an existing key in place,
      or adds the key at the end. */
  function Put(r: Report, name: string, size: ComponentSize): (r': Report)
    ensures Names(r') == if name in Names(r) then Names(r) else Names(r) + [name]
    ensures Lookup(r', name) == Some(size)
    ensures UniqueNames(r) ==> UniqueNames(r')
  {
    if r == [] then [Entry(name, size)]
    else
      UniqueTail(r);
      NamesCons(r[0], r[1..]);
      assert r == [r[0]] + r[1..];
      if r[0].name == name then
        UniqueCons(Entry(name, size), r[1..]);
        NamesCons(Entry(name, size), r[1..]);
        [Entry(name, size)] + r[1..]
      else
        var rest := Put(r[1..], name, size);
        UniqueCons(r[0], rest);
        NamesCons(r[0], rest);
        ConsAppend(r[0].name, Names(r[1..]), [name]);
        [r[0]] + rest
  }

  lemma ConsAppend<T>(x: T, s: seq<T>, t: seq<T>)
    ensures [x] + (s + t) == [x] + s + t
  {
  }

  lemma NamesCons(e: Entry, rest: Report)
    ensures Names([e] + rest) == [e.name] + Names(rest)
  {
    assert ([e] + rest)[1..] == rest;
  }

  lemma LookupCons(e: Entry, rest: Report)
    ensures forall n :: Lookup([e] + rest, n) == if e.name == n then Some(e.size) else Lookup(rest, n)
  {
    assert ([e] + rest)[1..] == rest;
  }

  lemma UniqueTail(r: Report)
    requires r != []
    ensures UniqueNames(r) ==> UniqueNames(r[1..]) && r[0].name !in Names(r[1..])
  {
    if UniqueNames(r) {
      forall k | 0 <= k < |r| - 1 ensures Names(r[1..])[k] != r[0].name {
        assert Names(r[1..])[k] == r[k + 1].name;
      }
    }
  }

  lemma UniqueCons(e: Entry, rest: Report)
    ensures UniqueNames(rest) && e.name !in Names(rest) ==> UniqueNames([e] + rest)
  {
    if UniqueNames(rest) && e.name !in Names(rest) {
      var r := [e] + rest;
      forall i, j | 0 <= i < j < |r| ensures r[i].name != r[j].name {
        if i == 0 {
          assert r[j].name == Names(rest)[j - 1];
        } else {
          assert r[i] == rest[i - 1] && r[j] == rest[j - 1];
        }
      }
    }
  }

  /** Setting a key leaves every other key reading what it read before. */
  lemma {:induction false} PutOther(r: Report, name: string, size: ComponentSize, other: string)
    requires other != name
    ensures Lookup(Put(r, name, size), other) == Lookup(r, other)
  {
    if r != [] && r[0].name != name {
      PutOther(r[1..], name, size, other);
      LookupCons(r[0], Put(r[1..], name, size));
    }
  }

  /** In a report without repeated keys every entry is what its key reads. */
  lemma {:induction false} LookupEntry(r: Report, i: nat)
    requires UniqueNames(r) && i < |r|
    ensures Lookup(r, r[i].name) == Some(r[i].size)
  {
    if i > 0 {
      LookupEntry(r[1..], i - 1);
    }
  }

  /** Two reports without repeated keys that list the same keys in the same
      order and read the same under every key are equal. */
  lemma {:induction false} ReportExtensionality(r: Report, s: Report)
    requires UniqueNames(r) && UniqueNames(s)
    requires Names(r) == Names(s)
    requires forall n :: Lookup(r, n) == Lookup(s, n)
    ensures r == s
  {
    forall i | 0 <= i < |r| ensures r[i] == s[i] {
      LookupEntry(r, i);
      LookupEntry(s, i);
      assert Lookup(r, r[i].name) == Lookup(s, s[i].name);
    }
  }

  /** Setting a key the report does not hold appends it. */
  lemma {:induction false} PutNew(r: Report, name: string, size: ComponentSize)
    requires name !in Names(r)
    ensures Put(r, name, size) == r + [Entry(name, size)]
  {
    if r != [] {
      var rest := r[1..];
      assert r == [r[0]] + rest;
      NamesCons(r[0], rest);
      PutNew(rest, name, size);
      ConsAppend(r[0], rest, [Entry(name, size)]);
    }
  }
}
