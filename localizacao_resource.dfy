/** The Localizacao REST controller: the reservation, release and
    availability rules, over a primary store and a search index that mirrors
    it. The HTTP layer is not modelled; each endpoint is a method. */
module Resource {
  import opened Wrappers
  import opened Locations

  /** No identifier occurs twice in `s`. */
  ghost predicate NoDuplicates(s: seq<Id>) {
    forall i, j :: 0 <= i < j < |s| ==> s[i] != s[j]
  }

  /** `s` with every occurrence of `x` taken out, the rest in order. */
  function Without(s: seq<Id>, x: Id): (r: seq<Id>)
    ensures forall y :: y in r <==> y in s && y != x
    ensures NoDuplicates(s) ==> NoDuplicates(r)
    ensures |r| <= |s|
  {
    if s == [] then []
    else if s[0] == x then Without(s[1..], x)
    else
      var rest := Without(s[1..], x);
      NoDuplicatesUncons(s);
      NoDuplicatesUncons([s[0]] + rest);
      assert ([s[0]] + rest)[1..] == rest;
      [s[0]] + rest
  }

  /** A non-empty list is free of duplicates exactly when its head does not
      occur in its tail and its tail is free of duplicates. */
  lemma NoDuplicatesUncons(s: seq<Id>)
    requires s != []
    ensures NoDuplicates(s) <==> s[0] !in s[1..] && NoDuplicates(s[1..])
  {
    if s[0] !in s[1..] && NoDuplicates(s[1..]) {
      forall i, j | 0 <= i < j < |s| ensures s[i] != s[j] {
        assert s[j] == s[1..][j - 1];
        if i > 0 {
          assert s[i] == s[1..][i - 1];
        }
      }
    }
    if NoDuplicates(s) {
      forall i, j | 0 <= i < j < |s| - 1 ensures s[1..][i] != s[1..][j] {
        assert s[1..][i] == s[i + 1] && s[1..][j] == s[j + 1];
      }
    }
  }

  class LocalizacaoResource {
    /** The primary store (LocalizacaoRepository), keyed by id. */
    var store: map<Id, Location>
    /** The order in which the store's findAll yields its records. */
    var order: seq<Id>
    /** The search index (LocalizacaoSearchRepository), keyed by id. */
    var index: map<Id, Location>

    /** The store's own consistency: `order` lists each stored id once, and
        every record is stored under its own id. */
    ghost predicate Valid()
      reads this
    {
      && NoDuplicates(order)
      && (forall k :: k in order <==> k in store)
      && (forall k :: k in store ==> store[k].id == Some(k))
    }

    /** The index holds exactly what the store holds. */
    ghost predicate Mirrored()
      reads this
    {
      index == store
    }

    /** A controller over an empty store and an empty index. */
    constructor ()
      ensures Valid() && Mirrored()
      ensures store == map[] && order == [] && index == map[]
    {
      store, order, index := map[], [], map[];
    }

    // ---------------------------------------------------------------------
    // Repository operations, as used by the controller.

    /** findAll: every stored record once, in the store's order. */
    function FindAll(): (all: seq<Location>)
      reads this
      requires Valid()
      ensures |all| == |order|
      ensures forall i :: 0 <= i < |order| ==> all[i] == store[order[i]]
      ensures forall l :: l in all <==> l in store.Values
    {
      var o, st := order, store;
      var all := seq(|o|, i requires 0 <= i < |o| => st[o[i]]);
      assert forall l :: l in st.Values ==> l in all by {
        forall l | l in st.Values ensures l in all {
          var k :| k in st && st[k] == l;
          var i :| 0 <= i < |o| && o[i] == k;
          assert all[i] == l;
        }
      }
      all
    }

    /** findById. */
    method FindById(id: Id) returns (found: Option<Location>)
      requires Valid()
      ensures found.Some? <==> id in store
      ensures found.Some? ==> found.value == store[id] && found.value.id == Some(id)
      ensures found.Some? ==> found.value in FindAll()
    {
      if id in store {
        found := Some(store[id]);
      } else {
        found := None;
      }
    }

    /** findByEnderecoAndNumero: some stored record at the address pair, or
        none when there is no such record. Which one is returned when several
        share the pair is left open. */
    method FindByEnderecoAndNumero(endereco: string, numero: string) returns (found: Option<Location>)
      requires Valid()
      ensures found.None? <==> forall k :: k in store ==> !AtAddress(store[k], endereco, numero)
      ensures found.Some? ==> found.value in store.Values && AtAddress(found.value, endereco, numero)
    {
      if k :| k in store && AtAddress(store[k], endereco, numero) {
        found := Some(store[k]);
      } else {
        found := None;
      }
    }

    /** save on the store: insert or replace the record under its id; a new
        id goes to the end of the retrieval order. */
    method StoreSave(rec: Location)
      requires Valid() && rec.id.Some?
      modifies this`store, this`order
      ensures Valid()
      ensures store == old(store)[rec.id.value := rec]
      ensures order == if rec.id.value in old(store) then old(order) else old(order) + [rec.id.value]
    {
      var k := rec.id.value;
      if k !in store {
        order := order + [k];
      }
      store := store[k := rec];
    }

    /** save on the index. */
    method IndexSave(rec: Location)
      requires rec.id.Some?
      modifies this`index
      ensures index == old(index)[rec.id.value := rec]
    {
      index := index[rec.id.value := rec];
    }

    /** deleteById on the store; an absent id changes nothing. */
    method StoreDeleteById(id: Id)
      requires Valid()
      modifies this`store, this`order
      ensures Valid()
      ensures store == old(store) - {id}
      ensures order == Without(old(order), id)
    {
      store := store - {id};
      order := Without(order, id);
    }

    /** deleteById on the index. */
    method IndexDeleteById(id: Id)
      modifies this`index
      ensures index == old(index) - {id}
    {
      index := index - {id};
    }

    // ---------------------------------------------------------------------
    // Endpoints.

    /** createLocalizacao: save the request as given, then mirror the saved
        record to the index. A request without an id receives the id the
        store generates, `generated`, which is not yet in the store; a
        request that carries an id is saved under it (overwriting). */
    method Create(loc: Location, generated: Id) returns (result: Location)
      requires Valid()
      requires loc.id.None? ==> generated !in store
      modifies this
      ensures Valid()
      ensures result.id == (if loc.id.Some? then loc.id else Some(generated))
      ensures result == loc.(id := result.id)
      ensures store == old(store)[result.id.value := result]
      ensures index == old(index)[result.id.value := result]
      ensures order == if result.id.value in old(store) then old(order) else old(order) + [result.id.value]
      ensures old(Mirrored()) ==> Mirrored()
    {
      var rec := if loc.id.Some? then loc else loc.(id := Some(generated));
      StoreSave(rec);
      IndexSave(rec);
      result := rec;
    }

    /** updateLocalizacao: reject a request without an id; otherwise save the
        request itself with its reserved count raised by one, with no check
        against its capacity and none that the id is already stored, and
        mirror it to the index. */
    method Update(loc: Location) returns (r: Result<Location, Error>)
      requires Valid()
      modifies this
      ensures Valid()
      ensures r.Failure? <==> loc.id.None?
      ensures r.Failure? ==> r.error == InvalidId && unchanged(this)
      ensures r.Success? ==> r.value == Reserved(loc)
      ensures r.Success? ==>
        var k := loc.id.value;
        && store == old(store)[k := r.value]
        && index == old(index)[k := r.value]
        && order == (if k in old(store) then old(order) else old(order) + [k])
        && index[k] == store[k]
      ensures old(Mirrored()) ==> Mirrored()
    {
      if loc.id.None? {
        return Failure(InvalidId);
      }
      var rec := loc.(qtdReservada := loc.qtdReservada + 1);
      StoreSave(rec);
      IndexSave(rec);
      r := Success(rec);
    }

    /** liberaLocalizacao: find a stored record at the request's address pair
        and fail when there is none; otherwise save that stored record with
        its reserved count lowered by one, with no floor at zero, and mirror
        it to the index. Only the address pair of the request is read. */
    method Cancel(request: Location) returns (r: Result<Location, Error>)
      requires Valid()
      modifies this
      ensures Valid()
      ensures r.Failure? <==>
        forall k :: k in old(store) ==> !AtAddress(old(store)[k], request.endereco, request.numero)
      ensures r.Failure? ==> r.error == NotFound && unchanged(this)
      ensures r.Success? ==>
        && r.value.id.Some?
        && var k := r.value.id.value;
        && k in old(store)
        && AtAddress(old(store)[k], request.endereco, request.numero)
        && r.value == Released(old(store)[k])
        && store == old(store)[k := r.value]
        && index == old(index)[k := r.value]
        && order == old(order)
        && index[k] == store[k]
      ensures old(Mirrored()) ==> Mirrored()
    {
      var loca := FindByEnderecoAndNumero(request.endereco, request.numero);
      if loca.None? {
        return Failure(NotFound);
      }
      var rec := loca.value.(qtdReservada := loca.value.qtdReservada - 1);
      StoreSave(rec);
      IndexSave(rec);
      r := Success(rec);
    }

    /** getAllLocalizacaos: the stored records that have spare capacity, in
        the store's retrieval order. */
    method ListAvailable() returns (available: seq<Location>)
      requires Valid()
      ensures available == Available(FindAll())
      ensures forall l :: l in available <==> l in store.Values && HasSpareCapacity(l)
    {
      var all := FindAll();
      available := [];
      for i := 0 to |all|
        invariant available == Available(all[..i])
      {
        assert all[..i + 1] == all[..i] + [all[i]];
        AvailableAppend(all[..i], [all[i]]);
        assert Available([all[i]]) == if HasSpareCapacity(all[i]) then [all[i]] else [];
        if HasSpareCapacity(all[i]) {
          available := available + [all[i]];
        }
      }
      assert all[..|all|] == all;
      forall l
        ensures l in available <==> l in store.Values && HasSpareCapacity(l)
      {
        AvailableMembership(all, l);
      }
    }

    /** getLocalizacao: the record stored under `id`, or none. */
    method GetById(id: Id) returns (found: Option<Location>)
      requires Valid()
      ensures found.Some? <==> id in store
      ensures found.Some? ==> found.value == store[id] && found.value.id == Some(id)
    {
      found := FindById(id);
    }

    /** deleteLocalizacao: remove the id from the store, then from the index;
        nothing else changes. */
    method Delete(id: Id)
      requires Valid()
      modifies this
      ensures Valid()
      ensures store == old(store) - {id}
      ensures index == old(index) - {id}
      ensures order == Without(old(order), id)
      ensures old(Mirrored()) ==> Mirrored()
    {
      StoreDeleteById(id);
      IndexDeleteById(id);
    }
  }

  /** A reservation is not bounded by the capacity: an update of a record
      with no free slot still succeeds, and the stored record is overbooked. */
  method UpdateCanOverbook(resource: LocalizacaoResource, loc: Location)
    returns (r: Result<Location, Error>)
    requires resource.Valid()
    requires loc.id.Some? && !HasSpareCapacity(loc)
    modifies resource
    ensures resource.Valid()
    ensures r.Success?
    ensures loc.id.value in resource.store
    ensures resource.store[loc.id.value].qtdReservada > resource.store[loc.id.value].qtdTotais
  {
    r := resource.Update(loc);
    ReserveCanOverbook(loc);
  }

  /** A release is not bounded by zero: a cancel at an address pair whose
      stored records all have nothing reserved succeeds and stores -1. */
  method CancelHasNoFloor(resource: LocalizacaoResource, request: Location)
    returns (r: Result<Location, Error>)
    requires resource.Valid()
    requires exists k :: k in resource.store && AtAddress(resource.store[k], request.endereco, request.numero)
    requires forall k :: k in resource.store && AtAddress(resource.store[k], request.endereco, request.numero) ==>
      resource.store[k].qtdReservada == 0
    modifies resource
    ensures resource.Valid()
    ensures r.Success? && r.value.id.Some?
    ensures r.value.id.value in resource.store
    ensures resource.store[r.value.id.value].qtdReservada == -1
  {
    r := resource.Cancel(request);
  }

  /** After a delete, a lookup of the same id finds nothing. */
  method DeleteThenGet(resource: LocalizacaoResource, id: Id) returns (found: Option<Location>)
    requires resource.Valid()
    modifies resource
    ensures resource.Valid()
    ensures found.None?
  {
    resource.Delete(id);
    found := resource.GetById(id);
  }

  /** After a create, a lookup of the id it assigned finds the created
      record. */
  method CreateThenGet(resource: LocalizacaoResource, loc: Location, generated: Id)
    returns (created: Location, found: Option<Location>)
    requires resource.Valid()
    requires loc.id.None? ==> generated !in resource.store
    modifies resource
    ensures resource.Valid()
    ensures created.id.Some? && found == Some(created)
    ensures created == loc.(id := created.id)
  {
    created := resource.Create(loc, generated);
    found := resource.GetById(created.id.value);
  }
}
