/** The service directory: the dictionary `{name: id}` that `get_all_services`
    builds from the decoded list of services. A dictionary is modelled as the
    sequence of its (name, id) entries in iteration order, names distinct. */
module Directory {
  import opened Wrappers

  /** One element of the decoded service list, and one directory entry. */
  datatype Service = Service(name: string, id: string)

  type Directory = seq<Service>

  /** No name is a key twice. */
  predicate NamesDistinct(d: Directory) {
    forall i, j :: 0 <= i < j < |d| ==> d[i].name != d[j].name
  }

  /** The names occurring in a list of services. */
  function Names(entries: seq<Service>): set<string> {
    set e | e in entries :: e.name
  }

  /** `d[name]`: None when name is not a key, otherwise an id stored with
      name (the id of its first entry, the only one when names are
      distinct). */
  function Lookup(d: Directory, name: string): (r: Option<string>)
    ensures r.None? <==> name !in Names(d)
    ensures r.Some? ==> Service(name, r.value) in d
  {
    if |d| == 0 then None
    else if d[0].name == name then Some(d[0].id)
    else
      assert Names(d) == {d[0].name} + Names(d[1..]) by {
        assert d == [d[0]] + d[1..];
      }
      Lookup(d[1..], name)
  }

  /** In a directory with distinct names, looking up an entry's name finds
      that entry's id: the report's `services[service]` for the key being
      visited is the id stored with it. */
  lemma {:induction false} LookupOwnEntry(d: Directory, i: nat)
    requires NamesDistinct(d) && i < |d|
    ensures Lookup(d, d[i].name) == Some(d[i].id)
  {
    if i > 0 {
      assert d[0].name != d[i].name;
      LookupOwnEntry(d[1..], i - 1);
    }
  }

  /** `d[name] = id`: overwrites the id of an existing key in place, or adds a
      new key at the end of the iteration order. */
  function Put(d: Directory, name: string, id: string): (d': Directory)
    ensures Names(d') == Names(d) + {name}
    ensures |d'| == if name in Names(d) then |d| else |d| + 1
    ensures Lookup(d', name) == Some(id)
    ensures forall n :: n != name ==> Lookup(d', n) == Lookup(d, n)
  {
    if |d| == 0 then [Service(name, id)]
    else
      assert d == [d[0]] + d[1..];
      assert Names(d) == {d[0].name} + Names(d[1..]);
      if d[0].name == name then
        var d' := [Service(name, id)] + d[1..];
        assert Names(d') == {name} + Names(d[1..]);
        d'
      else
        var rest := Put(d[1..], name, id);
        var d' := [d[0]] + rest;
        assert Names(d') == {d[0].name} + Names(rest);
        assert d'[1..] == rest;
        d'
  }

  /** Writing a key keeps the keys distinct. */
  lemma {:induction false} PutKeepsDistinct(d: Directory, name: string, id: string)
    requires NamesDistinct(d)
    ensures NamesDistinct(Put(d, name, id))
  {
    if |d| > 0 && d[0].name != name {
      PutKeepsDistinct(d[1..], name, id);
      var rest := Put(d[1..], name, id);
      assert d == [d[0]] + d[1..];
      assert d[0].name !in Names(d[1..]);
      assert d[0].name !in Names(rest);
      assert Put(d, name, id) == [d[0]] + rest;
    }
  }

  /** `{s['name']: s['id'] for s in services}`: the entries inserted in list
      order, so a later duplicate name overwrites the id of an earlier one. */
  function FromList(entries: seq<Service>): (d: Directory)
    ensures NamesDistinct(d)
    ensures Names(d) == Names(entries)
    ensures |d| == |Names(entries)|
  {
    if |entries| == 0 then []
    else
      var init, last := entries[..|entries| - 1], entries[|entries| - 1];
      assert entries == init + [last];
      assert Names(entries) == Names(init) + {last.name};
      var d := Put(FromList(init), last.name, last.id);
      PutKeepsDistinct(FromList(init), last.name, last.id);
      DistinctNamesCount(d);
      d
  }

  /** Distinct names make the entry count the key count. */
  lemma {:induction false} DistinctNamesCount(d: Directory)
    requires NamesDistinct(d)
    ensures |Names(d)| == |d|
  {
    if |d| > 0 {
      assert d == [d[0]] + d[1..];
      assert Names(d) == {d[0].name} + Names(d[1..]);
      DistinctNamesCount(d[1..]);
    }
  }

  /** The dictionary comprehension as Python evaluates it: one assignment per
      element, in list order. */
  function Dict(entries: seq<Service>): map<string, string> {
    if |entries| == 0 then map[]
    else
      var last := entries[|entries| - 1];
      Dict(entries[..|entries| - 1])[last.name := last.id]
  }

  /** The directory and the dictionary have the same keys and values. */
  lemma {:induction false} FromListIsDict(entries: seq<Service>, name: string)
    ensures Lookup(FromList(entries), name)
         == if name in Dict(entries) then Some(Dict(entries)[name]) else None
  {
    if |entries| > 0 {
      FromListIsDict(entries[..|entries| - 1], name);
    }
  }

  /** For a name listed more than once, the id of its last occurrence wins. */
  lemma {:induction false} LastOccurrenceWins(entries: seq<Service>, i: nat)
    requires i < |entries|
    requires forall j :: i < j < |entries| ==> entries[j].name != entries[i].name
    ensures Lookup(FromList(entries), entries[i].name) == Some(entries[i].id)
  {
    var init := entries[..|entries| - 1];
    if i < |entries| - 1 {
      assert forall j :: i < j < |init| ==> init[j].name != init[i].name;
      LastOccurrenceWins(init, i);
    }
  }
}
