/** WiFiClient handles: they share reference-counted connections and are kept in an intrusive list. */
module Handles {
  import opened Tcp

  /** How many handles of the list own `c`. */
  function Count(owners: seq<ClientContext?>, c: ClientContext): nat {
    if |owners| == 0 then 0 else (if owners[0] == c then 1 else 0) + Count(owners[1..], c)
  }

  lemma {:induction false} CountUpdate(owners: seq<ClientContext?>, i: nat, x: ClientContext?, c: ClientContext)
    requires i < |owners|
    ensures Count(owners[i := x], c) + (if owners[i] == c then 1 else 0) == Count(owners, c) + (if x == c then 1 else 0)
  {
    if i == 0 {
      assert owners[0 := x][1..] == owners[1..];
    } else {
      CountUpdate(owners[1..], i - 1, x, c);
      assert owners[i := x][1..] == owners[1..][i - 1 := x];
    }
  }

  lemma {:induction false} CountRemove(owners: seq<ClientContext?>, i: nat, c: ClientContext)
    requires i < |owners|
    ensures Count(owners[..i] + owners[i + 1..], c) + (if owners[i] == c then 1 else 0) == Count(owners, c)
  {
    var rest := owners[..i] + owners[i + 1..];
    if i == 0 {
      assert rest == owners[1..];
    } else {
      CountRemove(owners[1..], i - 1, c);
      assert rest[1..] == owners[1..][..i - 1] + owners[1..][i..];
    }
  }

  lemma {:induction false} CountPositive(owners: seq<ClientContext?>, i: nat, c: ClientContext)
    requires i < |owners| && owners[i] == c
    ensures Count(owners, c) > 0
  {
    if i > 0 {
      CountPositive(owners[1..], i - 1, c);
    }
  }

  /** Count is zero exactly for a context that no handle owns. */
  lemma {:induction false} CountZero(owners: seq<ClientContext?>, c: ClientContext)
    ensures Count(owners, c) == 0 <==> c !in owners
  {
    if |owners| > 0 {
      CountZero(owners[1..], c);
      assert owners == [owners[0]] + owners[1..];
    }
  }

  class WiFiClient {
    var client: ClientContext?
    var next: WiFiClient?

    constructor ()
      ensures client == null && next == null
    {
      client, next := null, null;
    }
  }

  /** The static list of live handles.  `claimed` are the contexts that were ever given to a handle. */
  class Registry {
    var first: WiFiClient?
    ghost var handles: seq<WiFiClient>
    ghost var owners: seq<ClientContext?>
    ghost var claimed: set<ClientContext>

    /** The list holds exactly the live handles. */
    ghost predicate Listed()
      reads this`first, this`handles, handles`next
    {
      && (forall i, j :: 0 <= i < j < |handles| ==> handles[i] != handles[j])
      && first == (if |handles| > 0 then handles[0] else null)
      && (forall i {:trigger handles[i].next} :: 0 <= i < |handles| ==>
            handles[i].next == if i + 1 < |handles| then handles[i + 1] else null)
    }

    /** `owners` is what the handles own. */
    ghost predicate Owned()
      reads this`handles, this`owners, handles`client
    {
      && |owners| == |handles|
      && (forall i {:trigger handles[i].client} :: 0 <= i < |handles| ==> handles[i].client == owners[i])
    }

    /** Every claimed context counts its owners, and is freed exactly when there are none. */
    ghost predicate Counted()
      reads this`owners, this`claimed, claimed`refcnt, claimed`freed
    {
      && (forall i :: 0 <= i < |owners| && owners[i] != null ==> owners[i] in claimed)
      && (forall c :: c in claimed ==> c.refcnt == Count(owners, c) && c.freed == (c.refcnt == 0))
    }

    ghost predicate Valid()
      reads this, handles, claimed
    {
      Listed() && Owned() && Counted()
    }

    /** No handle dangles. */
    lemma NoDangling(i: nat)
      requires Valid() && i < |handles| && handles[i].client != null
      ensures !handles[i].client.freed && handles[i].client.refcnt > 0
    {
      CountPositive(owners, i, handles[i].client);
    }

    constructor ()
      ensures Valid() && handles == [] && owners == [] && claimed == {}
    {
      first, handles, owners, claimed := null, [], [], {};
    }

    /** `_add` */
    method Add(h: WiFiClient)
      requires Listed() && h !in handles
      modifies this`first, this`handles, h`next
      ensures Listed() && handles == [h] + old(handles)
    {
      var tmp := first;
      first := h;
      h.next := tmp;
      handles := [h] + handles;
    }

    /** `_remove` */
    method Remove(h: WiFiClient, ghost k: nat)
      requires Listed() && k < |handles| && handles[k] == h
      modifies this`first, this`handles, handles`next
      ensures Listed() && handles == old(handles[..k] + handles[k + 1..])
      ensures h.next == null
    {
      ghost var all := handles;
      handles := all[..k] + all[k + 1..];
      if first == h {
        first := h.next;
        h.next := null;
        return;
      }
      var prev := first;
      ghost var i := 0;
      while prev.next != null
        invariant i < k && prev == all[i]
        invariant forall j :: 0 <= j < |all| ==> all[j].next == old(all[j].next)
        decreases k - i
      {
        if prev.next == h {
          prev.next := h.next;
          h.next := null;
          return;
        }
        prev := prev.next;
        i := i + 1;
      }
    }

    /** `stop` */
    method Stop(h: WiFiClient, ghost k: nat)
      requires Valid() && k < |handles| && handles[k] == h
      modifies this`owners, h`client, claimed
      ensures Valid() && owners == old(owners)[k := null] && h.client == null
    {
      hide Count, ClientContext.Valid;
      Counts(k, null);
      if h.client == null {
        assert owners == owners[k := null];
        return;
      }
      h.client.Unref();
      h.client := null;
      owners := owners[k := null];
    }

    /** What setting owner k to x does to every count. */
    lemma Counts(k: nat, x: ClientContext?)
      requires k < |owners|
      ensures forall c :: c in claimed ==>
        Count(owners[k := x], c) + (if owners[k] == c then 1 else 0) == Count(owners, c) + (if x == c then 1 else 0)
      ensures owners[k] != null ==> Count(owners, owners[k]) > 0
    {
      forall c | c in claimed
        ensures Count(owners[k := x], c) + (if owners[k] == c then 1 else 0)
          == Count(owners, c) + (if x == c then 1 else 0)
      {
        CountUpdate(owners, k, x, c);
      }
      if owners[k] != null {
        CountPositive(owners, k, owners[k]);
      }
    }

    /** What one more owner in front does to every count. */
    lemma CountsWith(x: ClientContext?)
      ensures forall c {:trigger Count([x] + owners, c)} ::
        Count([x] + owners, c) == Count(owners, c) + if x == c then 1 else 0
    {
      assert ([x] + owners)[1..] == owners;
    }

    /** The default constructor. */
    method Construct() returns (h: WiFiClient)
      requires Valid()
      modifies this`first, this`handles, this`owners
      ensures Valid() && fresh(h) && h.client == null
      ensures handles == [h] + old(handles) && owners == [null] + old(owners) && claimed == old(claimed)
    {
      hide Count, ClientContext.Valid;
      h := new WiFiClient();
      CountsWith(null);
      owners := [null] + owners;
      Add(h);
    }

    /** The constructor the accept queue uses: the first handle of a context nobody owns. */
    method Claim(c: ClientContext) returns (h: WiFiClient)
      requires Valid() && c !in claimed && c.refcnt == 0 && !c.freed
      modifies this`first, this`handles, this`owners, this`claimed, c`refcnt
      ensures Valid() && fresh(h) && h.client == c && c.refcnt == 1
      ensures handles == [h] + old(handles) && owners == [c as ClientContext?] + old(owners)
        && claimed == old(claimed) + {c}
    {
      hide Count, ClientContext.Valid;
      CountZero(owners, c);
      CountsWith(c);
      h := new WiFiClient();
      h.client := c;
      c.Ref();
      owners, claimed := [c as ClientContext?] + owners, claimed + {c};
      Add(h);
    }

    /** The copy constructor. */
    method Copy(other: WiFiClient, ghost m: nat) returns (h: WiFiClient)
      requires Valid() && m < |handles| && handles[m] == other
      modifies this`first, this`handles, this`owners, claimed
      ensures Valid() && fresh(h) && h.client == other.client
      ensures handles == [h] + old(handles) && owners == [old(owners)[m]] + old(owners) && claimed == old(claimed)
    {
      hide Count, ClientContext.Valid;
      Counts(m, null);
      CountsWith(owners[m]);
      h := new WiFiClient();
      h.client := other.client;
      if h.client != null {
        h.client.Ref();
      }
      owners := [owners[m]] + owners;
      Add(h);
    }

    /** Assigning a handle that is its context's only owner to itself. */
    ghost predicate LastSelfAssign(h: WiFiClient, other: WiFiClient)
      reads h, h.client
    {
      h == other && h.client != null && h.client.refcnt == 1
    }

    /** `operator=`: the invariant survives unless the only owner of a context is assigned to itself;
        then the context is freed and the handle dangles. */
    method Assign(h: WiFiClient, ghost k: nat, other: WiFiClient, ghost m: nat)
      requires Valid() && k < |handles| && handles[k] == h && m < |handles| && handles[m] == other
      modifies this`owners, h`client, claimed
      ensures owners == old(owners)[k := old(owners)[m]] && claimed == old(claimed)
      ensures Valid() <==> !old(LastSelfAssign(h, other))
      ensures old(LastSelfAssign(h, other)) ==> h.client != null && h.client.freed
    {
      hide Count, ClientContext.Valid;
      AssignCounts(k, m);
      if h.client != null {
        h.client.Unref();
      }
      h.client := other.client;
      if h.client != null {
        h.client.Ref();
      }
      owners := owners[k := owners[m]];
      if old(LastSelfAssign(h, other)) {
        assert h.client == old(h.client) && h.client in claimed && h.client.freed && h.client.refcnt == 1;
        assert !Counted();
      }
    }

    /** What the assignment of owner m to owner k does to every count. */
    lemma AssignCounts(k: nat, m: nat)
      requires k < |owners| && m < |owners|
      ensures forall c :: c in claimed ==>
        Count(owners[k := owners[m]], c) + (if owners[k] == c then 1 else 0)
          == Count(owners, c) + (if owners[m] == c then 1 else 0)
      ensures owners[k] != null ==> Count(owners, owners[k]) > 0
      ensures owners[m] != null ==> Count(owners, owners[m]) > 0
      ensures k != m && owners[k] != null && owners[k] == owners[m] ==> Count(owners, owners[k]) > 1
    {
      Counts(k, owners[m]);
      Counts(m, null);
      if k != m && owners[k] != null && owners[k] == owners[m] {
        CountUpdate(owners, k, null, owners[k]);
        CountPositive(owners[k := null], m, owners[k]);
      }
    }

    /** The destructor. */
    method Destroy(h: WiFiClient, ghost k: nat)
      requires Valid() && k < |handles| && handles[k] == h
      modifies this`first, this`handles, this`owners, handles`next, claimed
      ensures Valid() && h !in handles && claimed == old(claimed)
      ensures handles == old(handles[..k] + handles[k + 1..]) && owners == old(owners[..k] + owners[k + 1..])
    {
      hide Counted, ClientContext.Valid;
      Remove(h, k);
      WithoutOne(old(handles), k);
      WithoutOne(old(owners), k);
      DropOwner(h, k);
    }

    /** A removed handle lets go of what it owned. */
    method DropOwner(h: WiFiClient, ghost k: nat)
      requires Counted() && k < |owners| && h.client == owners[k]
      modifies this`owners, claimed
      ensures Counted() && owners == old(owners[..k] + owners[k + 1..])
    {
      hide Count, ClientContext.Valid;
      CountsWithout(k);
      if h.client != null {
        h.client.Unref();
      }
      WithoutOne(owners, k);
      owners := owners[..k] + owners[k + 1..];
    }

    static lemma WithoutOne<T>(s: seq<T>, k: nat)
      requires k < |s|
      ensures forall i {:trigger (s[..k] + s[k + 1..])[i]} :: 0 <= i < |s| - 1 ==>
        (s[..k] + s[k + 1..])[i] == s[if i < k then i else i + 1]
    {
    }

    /** `h = WiFiClient()`: the temporary handle is gone afterwards. */
    method AssignEmpty(h: WiFiClient, ghost k: nat)
      requires Valid() && k < |handles| && handles[k] == h
      modifies this`first, this`handles, this`owners, handles`next, h`client, claimed
      ensures Valid() && handles == old(handles) && claimed == old(claimed)
      ensures owners == old(owners)[k := null] && h.client == null
    {
      hide Counted, Listed, LastSelfAssign;
      ghost var all, own := handles, owners;
      var empty := Construct();
      NotSelf(h, empty);
      Assign(h, k + 1, empty, 0);
      Destroy(empty, 0);
      assert ([empty] + all)[1..] == all;
      assert ([null] + own)[k + 1 := null][1..] == own[k := null];
    }

    lemma NotSelf(h: WiFiClient, other: WiFiClient)
      requires h != other
      ensures !LastSelfAssign(h, other)
    {
    }

    /** `h = other` where `other`, the newest handle, is destroyed next. */
    method AssignAndDrop(h: WiFiClient, ghost k: nat, other: WiFiClient)
      requires Valid() && 0 < k < |handles| && handles[k] == h && handles[0] == other
      modifies this`first, this`handles, this`owners, handles`next, h`client, claimed
      ensures Valid() && handles == old(handles)[1..] && claimed == old(claimed)
      ensures owners == old(owners)[1..][k - 1 := old(owners)[0]] && h.client == old(other.client)
    {
      hide Counted, LastSelfAssign;
      ghost var all, own := handles, owners;
      NotSelf(h, other);
      Assign(h, k, other, 0);
      assert own[k := own[0]][1..] == own[1..][k - 1 := own[0]];
      Destroy(other, 0);
    }

    lemma CountsWithout(k: nat)
      requires k < |owners|
      ensures forall c :: c in claimed ==>
        Count(owners[..k] + owners[k + 1..], c) + (if owners[k] == c then 1 else 0) == Count(owners, c)
      ensures owners[k] != null ==> Count(owners, owners[k]) > 0
    {
      forall c | c in claimed
        ensures Count(owners[..k] + owners[k + 1..], c) + (if owners[k] == c then 1 else 0) == Count(owners, c)
      {
        CountRemove(owners, k, c);
      }
      if owners[k] != null {
        CountPositive(owners, k, owners[k]);
      }
    }

    /** `connect`: stops what the handle had; when the peer answers, the handle is the only owner of a new context. */
    method Connect(h: WiFiClient, ghost k: nat, routed: bool, answered: bool) returns (ok: bool)
      requires Valid() && k < |handles| && handles[k] == h
      modifies this`owners, this`claimed, h`client, claimed
      ensures Valid() && ok == (routed && answered) && ok == (h.client != null)
      ensures handles == old(handles) && owners == old(owners)[k := h.client]
      ensures ok ==> fresh(h.client) && h.client.refcnt == 1 && claimed == old(claimed) + {h.client}
      ensures !ok ==> claimed == old(claimed)
    {
      if h.client != null {
        Stop(h, k);
      }
      assert owners == old(owners)[k := null];
      if !routed {
        return false;
      }
      if answered {
        Connected(h, k);
      }
      ok := h.client != null;
    }

    /** `_connected`, called back once the peer answers. */
    method Connected(h: WiFiClient, ghost k: nat)
      requires Valid() && k < |handles| && handles[k] == h && h.client == null
      modifies this`owners, this`claimed, h`client
      ensures Valid() && h.client != null && fresh(h.client) && h.client.refcnt == 1
      ensures owners == old(owners)[k := h.client] && claimed == old(claimed) + {h.client}
    {
      hide Count, ClientContext.Valid;
      var c := new ClientContext();
      CountZero(owners, c);
      CountUpdate(owners, k, c, c);
      Counts(k, c);
      h.client := c;
      c.Ref();
      owners, claimed := owners[k := c], claimed + {c};
    }

    /** `stopAll`: every handle stays in the list but owns nothing, and every context is freed. */
    method StopAll()
      requires Valid()
      modifies this`owners, handles`client, claimed
      ensures Valid() && handles == old(handles) && claimed == old(claimed)
      ensures forall i :: 0 <= i < |handles| ==> handles[i].client == null
      ensures forall c :: c in claimed ==> c.freed
    {
      var it := first;
      ghost var k := 0;
      while it != null
        invariant Valid() && handles == old(handles) && claimed == old(claimed)
        invariant k <= |handles| && it == if k < |handles| then handles[k] else null
        invariant forall i :: 0 <= i < k ==> owners[i] == null
        decreases |handles| - k
      {
        Stop(it, k);
        it := it.next;
        k := k + 1;
      }
      forall c | c in claimed ensures c.freed {
        CountZero(owners, c);
      }
    }

    /** `stopAllExcept` */
    method StopAllExcept(except: WiFiClient?)
      requires Valid()
      modifies this`owners, handles`client, claimed
      ensures Valid() && handles == old(handles) && claimed == old(claimed)
      ensures forall i :: 0 <= i < |handles| ==>
        handles[i].client == if handles[i] == except then old(handles[i].client) else null
    {
      var it := first;
      ghost var k := 0;
      while it != null
        invariant Valid() && handles == old(handles) && claimed == old(claimed)
        invariant k <= |handles| && it == if k < |handles| then handles[k] else null
        invariant forall i :: 0 <= i < |handles| ==>
          handles[i].client == if i < k && handles[i] != except then null else old(handles[i].client)
        decreases |handles| - k
      {
        if it != except {
          Stop(it, k);
        }
        it := it.next;
        k := k + 1;
      }
    }
  }
}
