/** The factory that hands out one database client per connection string,
    creating a client on the first request for a string and reusing it on
    every later one. */
module ClientFactory {
  import opened Wrappers
  import opened Text
  import opened Ensure

  /** A database client, seen as an opaque handle that can be disposed. */
  class CosmosClient {
    const connectionString: string
    var disposed: bool

    constructor(connectionString: string)
      ensures this.connectionString == connectionString && !disposed
    {
      this.connectionString := connectionString;
      disposed := false;
    }

    method Dispose()
      modifies this
      ensures disposed
    {
      disposed := true;
    }
  }

  class CosmosClientFactory {
    /** The clients created so far, keyed by their connection string. */
    var existingClients: map<string, CosmosClient>

    /** Every key is a non-blank connection string, and the client stored
        under it was created for it. */
    ghost predicate Valid()
      reads this, existingClients.Values
    {
      forall cs :: cs in existingClients ==> !IsBlank(cs) && existingClients[cs].connectionString == cs
    }

    constructor()
      ensures Valid() && existingClients == map[]
    {
      existingClients := map[];
    }

    /** `GetCosmosClient`: the cached client for the string, or a new one,
        which is cached. Entries for other strings are never touched. */
    method GetCosmosClient(connectionString: Option<string>) returns (r: Result<CosmosClient, Error>)
      requires Valid()
      modifies this
      ensures Valid()
      ensures connectionString.None? || IsBlank(connectionString.value) ==>
                r == Failure(NullOrWhitespace("connectionString")) && existingClients == old(existingClients)
      ensures connectionString.Some? && connectionString.value in old(existingClients) ==>
                r == Success(old(existingClients)[connectionString.value]) &&
                existingClients == old(existingClients)
      ensures connectionString.Some? && !IsBlank(connectionString.value) &&
              connectionString.value !in old(existingClients) ==>
                r.Success? && fresh(r.value) && r.value.connectionString == connectionString.value &&
                existingClients == old(existingClients)[connectionString.value := r.value]
      ensures r.Success? ==> connectionString.Some? && connectionString.value in existingClients &&
                             existingClients[connectionString.value] == r.value
    {
      var cs :- IsNotNullOrWhitespace(connectionString, "connectionString");
      if cs in existingClients {
        return Success(existingClients[cs]);
      }
      var client := new CosmosClient(cs);
      existingClients := existingClients[cs := client];
      return Success(client);
    }

    /** `Dispose`: dispose every cached client. */
    method Dispose()
      modifies existingClients.Values
      ensures forall c :: c in existingClients.Values ==> c.disposed
    {
      var remaining := existingClients.Values;
      while remaining != {}
        invariant remaining <= existingClients.Values
        invariant forall c :: c in existingClients.Values - remaining ==> c.disposed
        decreases remaining
      {
        var c :| c in remaining;
        c.Dispose();
        remaining := remaining - {c};
      }
    }
  }

  /** Two requests for the same string get the same client, and the second
      leaves the cache as the first left it. */
  method ReuseOnSecondRequest(factory: CosmosClientFactory, cs: string)
      returns (first: Result<CosmosClient, Error>, second: Result<CosmosClient, Error>)
    requires factory.Valid()
    modifies factory
    ensures first.Success? <==> !IsBlank(cs)
    ensures first.Success? ==> second == first
    ensures old(factory.existingClients).Keys <= factory.existingClients.Keys
  {
    first := factory.GetCosmosClient(Some(cs));
    ghost var between := factory.existingClients;
    second := factory.GetCosmosClient(Some(cs));
    assert factory.existingClients == between;
  }
}
