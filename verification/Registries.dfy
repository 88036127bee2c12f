/** container.c and server.c: the two add-only registries over a pointer list. Check and add are
    taken as one sequential call. */
module Registries {
  import opened Wrappers
  import opened Slots
  import opened PtrLists
  import opened References

  // sizeof(p->name) - 1 and sizeof(p->scheme) - 1.
  const NAMESZ: nat := 47

  datatype Entry<T> = Entry(name: string, target: T)

  /** strncpy into a zeroed array of NAMESZ + 1 bytes. */
  function Truncated(name: string): string {
    if |name| <= NAMESZ then name else name[..NAMESZ]
  }

  /** The target of the first entry with this name. */
  function Find<T>(entries: seq<Entry<T>>, name: string): Option<T> {
    if entries == [] then None
    else if entries[0].name == name then Some(entries[0].target)
    else Find(entries[1..], name)
  }

  function Registered<T>(entries: seq<Entry<T>>, name: string, target: T): seq<Entry<T>> {
    if Find(entries, name).Some? then entries else entries + [Entry(Truncated(name), target)]
  }

  ghost predicate NamesFit<T>(entries: seq<Entry<T>>) {
    forall e | e in entries :: |e.name| <= NAMESZ
  }

  lemma {:induction false} FindMissing<T>(entries: seq<Entry<T>>, name: string)
    ensures Find(entries, name).None? <==> forall e | e in entries :: e.name != name
  {
    if entries != [] {
      FindMissing(entries[1..], name);
      assert entries == [entries[0]] + entries[1..];
    }
  }

  lemma {:induction false} FindAppend<T>(entries: seq<Entry<T>>, e: Entry<T>, name: string)
    ensures Find(entries + [e], name) ==
      if Find(entries, name).Some? then Find(entries, name) else if e.name == name then Some(e.target) else None
  {
    if entries == [] {
      assert ([e] + [])[1..] == [] && Find<T>([], name) == None;
    } else {
      assert (entries + [e])[1..] == entries[1..] + [e];
      FindAppend(entries[1..], e, name);
    }
  }

  /** A new registration can be located under the name it was made with, and refuses a second one
      under that name, iff the name fits the stored array. Longer names are stored cut. */
  lemma {:induction false} RegisteredIsLocated<T>(entries: seq<Entry<T>>, name: string, target: T, second: T)
    requires NamesFit(entries) && Find(entries, name).None?
    ensures var after := Registered(entries, name, target);
      && NamesFit(after)
      && (Find(after, name) == Some(target) <==> |name| <= 47)
      && (Registered(after, name, second) == after <==> |name| <= 47)
  {
    FindAppend(entries, Entry(Truncated(name), target), name);
  }

  /** A registration changes what is located only under the name it stores. */
  lemma {:induction false} RegisteredKeepsOthers<T>(entries: seq<Entry<T>>, name: string, target: T, other: string)
    requires other != Truncated(name)
    ensures Find(Registered(entries, name, target), other) == Find(entries, other)
  {
    FindAppend(entries, Entry(Truncated(name), target), other);
  }

  class Registry {
    const list: PtrList<Entry<Server>>

    ghost predicate Valid()
      reads this, list, list.list
    {
      list.Valid() && list.blocksize > 0 && Packed(list.list[..])
    }

    ghost function Entries(): seq<Entry<Server>>
      reads this, list, list.list
    {
      Items(list.list[..])
    }

    /** container_init, server_init. */
    constructor ()
      ensures Valid() && fresh(list) && fresh(list.list) && Entries() == []
    {
      list := new PtrList(0);
    }

    /** container_register, server_register: the duplicate check runs over every allocated slot. */
    method Register(name: string, target: Server) returns (r: int)
      requires Valid()
      modifies list, list.list, target
      ensures Valid() && (list.list == old(list.list) || fresh(list.list))
      ensures r == (if Find(old(Entries()), name).Some? then -1 else 0)
      ensures Entries() == Registered(old(Entries()), name, target)
      ensures target.refcount == (if r == 0 then Incremented(old(target.refcount)) else old(target.refcount))
    {
      hide Items, FirstEmpty;
      var _ := target.AddRef();
      ghost var entries := Entries();
      PackedItems(list.list[..]);
      FindMissing(entries, name);
      var c := 0;
      while c < list.alloc
        invariant 0 <= c <= list.alloc
        invariant forall j | 0 <= j < c && j < |entries| :: entries[j].name != name
      {
        if list.list[c].Some? && list.list[c].value.name == name {
          assert entries[c].name == name;
          CountsExactly(old(target.refcount));
          var _ := target.Release();
          return -1;
        }
        c := c + 1;
      }
      AddedPacked(list.list[..], list.blocksize, Entry(Truncated(name), target));
      r := list.AddUnlocked(Entry(Truncated(name), target));
    }

    /** The look-up of container_locate and server_endpoint_uri: the scan runs over the first `count`
        slots only, and still misses no entry. */
    method Locate(name: string) returns (r: int, out: Server?)
      requires Valid()
      ensures r == (if out == null then -1 else 0)
      ensures Find(Entries(), name) == (if out == null then None else Some(out))
      ensures out != null ==> Holds(out)
    {
      hide Items, FirstEmpty;
      ghost var entries := Entries();
      PackedItems(list.list[..]);
      out := null;
      var c := 0;
      while c < list.count
        invariant 0 <= c <= list.count
        invariant Find(entries, name) == Find(entries[c..], name)
      {
        if list.list[c].Some? && list.list[c].value.name == name {
          assert list.list[c].value == entries[c];
          out := list.list[c].value.target;
          return 0, out;
        }
        c := c + 1;
      }
      r := -1;
    }

    /** A slot of the list holds this target. */
    ghost predicate Holds(target: Server)
      reads this, list, list.list
    {
      exists c | 0 <= c < list.list.Length :: list.list[c].Some? && list.list[c].value.target == target
    }

    ghost function CountOf(name: string): Count
      reads this, list, list.list, Target(name)
    {
      match Find(Entries(), name) case None => 0 case Some(target) => target.refcount
    }

    ghost function FreedOf(name: string): bool
      reads this, list, list.list, Target(name)
    {
      match Find(Entries(), name) case None => false case Some(target) => target.freed
    }

    ghost function Target(name: string): set<Server>
      reads this, list, list.list
    {
      match Find(Entries(), name) case None => {} case Some(target) => {target}
    }

    /** container_locate: the caller gets a reference of its own. */
    method LocateContainer(name: string) returns (r: int, out: Server?)
      requires Valid()
      modifies Target(name)
      ensures match old(Find(Entries(), name))
        case None => r == -1 && out == null
        case Some(target) =>
          && r == 0 && out == target
          && target.refcount == Incremented(old(CountOf(name))) && target.freed == old(FreedOf(name))
    {
      hide Items, Find;
      r, out := Locate(name);
      if out != null {
        var _ := out.AddRef();
      }
    }

    /** server_endpoint_uri for a URI of this scheme; None if it has none. The FastCGI server creates
        an endpoint, which holds a reference to it; `ok` says whether the URI names a socket that can
        be opened, without which there is no endpoint and no reference. */
    method EndpointFor(scheme: Option<string>, ok: bool) returns (r: int, ep: Endpoint?)
      requires Valid()
      modifies if scheme.None? || !ok then {} else Target(scheme.value)
      ensures match old(if scheme.None? || !ok then None else Find(Entries(), scheme.value))
        case None => r == -1 && ep == null
        case Some(target) =>
          && r == 0 && ep != null && fresh(ep) && ep.server == target
          && ep.refcount == 1 && !ep.freed && ep.request == None
          && target.refcount == Incremented(old(CountOf(scheme.value))) && target.freed == old(FreedOf(scheme.value))
    {
      hide Items, Find;
      ep := null;
      if scheme.None? {
        return -1, null;
      }
      var _, server := Locate(scheme.value);
      if server == null {
        return -1, null;
      }
      if !ok {
        return -1, null;
      }
      ep := new Endpoint(server);
      r := 0;
    }
  }
}
