/** The table of registered users: a hundred slots behind one lock (irc/src/user.c). */
module UserTable {
  import opened Common

  const MAX_USERS := 100

  /** A slot of the table as everyone who holds the lock sees it. */
  datatype Slot<T> = Free | Taken(client: T, nick: Option<string>)

  /** The first slot from i on whose user has this nick, or the number of slots. */
  function HolderFrom<T>(slots: seq<Slot<T>>, nick: string, i: nat): (k: nat)
    requires i <= |slots|
    ensures i <= k <= |slots| && (k < |slots| ==> slots[k].Taken? && slots[k].nick == Some(nick))
    ensures forall j :: i <= j < k ==> !(slots[j].Taken? && slots[j].nick == Some(nick))
    decreases |slots| - i
  {
    if i == |slots| || (slots[i].Taken? && slots[i].nick == Some(nick)) then i else HolderFrom(slots, nick, i + 1)
  }

  predicate InUse<T>(slots: seq<Slot<T>>, nick: string) {
    HolderFrom(slots, nick, 0) < |slots|
  }

  function FreeFrom<T>(slots: seq<Slot<T>>, i: nat): (k: nat)
    requires i <= |slots|
    ensures i <= k <= |slots| && (k < |slots| ==> slots[k].Free?)
    ensures forall j :: i <= j < k ==> slots[j].Taken?
    decreases |slots| - i
  {
    if i == |slots| || slots[i].Free? then i else FreeFrom(slots, i + 1)
  }

  predicate HasRoom<T>(slots: seq<Slot<T>>) {
    FreeFrom(slots, 0) < |slots|
  }

  /** register_user: the nick is looked for again under the lock. */
  function Enter<T>(slots: seq<Slot<T>>, client: T, nick: string): (r: seq<Slot<T>>)
    requires !InUse(slots, nick) ==> HasRoom(slots)
    ensures |r| == |slots|
  {
    if InUse(slots, nick) then slots else slots[FreeFrom(slots, 0) := Taken(client, Some(nick))]
  }

  /** The first slot of the client, or the number of slots. */
  function SlotFrom<T(==)>(slots: seq<Slot<T>>, client: T, i: nat): (k: nat)
    requires i <= |slots|
    ensures i <= k <= |slots| && (k < |slots| ==> slots[k].Taken? && slots[k].client == client)
    ensures forall j :: i <= j < k ==> !(slots[j].Taken? && slots[j].client == client)
    decreases |slots| - i
  {
    if i == |slots| || (slots[i].Taken? && slots[i].client == client) then i else SlotFrom(slots, client, i + 1)
  }

  function Leave<T(==)>(slots: seq<Slot<T>>, client: T): (r: seq<Slot<T>>)
    ensures |r| == |slots|
  {
    var k := SlotFrom(slots, client, 0);
    if k < |slots| then slots[k := Free] else slots
  }

  /** The number of occupied slots among the first n. */
  function Count<T>(slots: seq<Slot<T>>, n: nat): nat
    requires n <= |slots|
  {
    if n == 0 then 0 else Count(slots, n - 1) + if slots[n - 1].Taken? then 1 else 0
  }

  lemma {:induction false} CountUpdate<T>(slots: seq<Slot<T>>, k: nat, s: Slot<T>, n: nat)
    requires k < |slots| && n <= |slots|
    ensures Count(slots[k := s], n) ==
            if k < n then Count(slots, n) - (if slots[k].Taken? then 1 else 0) + (if s.Taken? then 1 else 0)
            else Count(slots, n)
  {
    if n > 0 {
      CountUpdate(slots, k, s, n - 1);
    }
  }

  class User {
    var nick: Option<string>

    constructor ()
      ensures nick == None
    {
      nick := None;
    }
  }

  class Table {
    const users: array<User?>

    ghost function Slots(): (s: seq<Slot<User?>>)
      reads users, set i | 0 <= i < users.Length && users[i] != null :: users[i]
      ensures |s| == users.Length
      ensures forall i :: 0 <= i < |s| ==> s[i] == if users[i] == null then Free else Taken(users[i], users[i].nick)
    {
      seq(users.Length, i requires 0 <= i < users.Length
                          reads users, set i | 0 <= i < users.Length && users[i] != null :: users[i]
                        => if users[i] == null then Free else Taken(users[i], users[i].nick))
    }

    constructor ()
      ensures fresh(users) && users.Length == 100 && Slots() == seq(100, _ => Free)
    {
      users := new User?[MAX_USERS](_ => null);
    }

    /** get_user; whoever calls it holds the lock. */
    method GetUser(nick: string) returns (user: User?)
      ensures user == if InUse(Slots(), nick) then users[HolderFrom(Slots(), nick, 0)] else null
    {
      for i := 0 to users.Length
        invariant HolderFrom(Slots(), nick, 0) == HolderFrom(Slots(), nick, i)
      {
        if users[i] != null && users[i].nick == Some(nick) {
          return users[i];
        }
      }
      return null;
    }

    /** register_user.  Without a free slot for a new nick the code falls off its end and keeps the
        lock. */
    method RegisterUser(client: User) returns (ok: bool)
      requires client.nick.Some? && (!InUse(Slots(), client.nick.value) ==> HasRoom(Slots()))
      modifies users
      ensures ok == !InUse(old(Slots()), client.nick.value)
      ensures Slots() == Enter(old(Slots()), client, client.nick.value)
    {
      var other := GetUser(client.nick.value);
      if other != null {
        return false;
      }
      var i := 0;
      while users[i] != null
        invariant 0 <= i <= FreeFrom(Slots(), 0) && FreeFrom(Slots(), 0) < users.Length
        decreases users.Length - i
      {
        i := i + 1;
      }
      ghost var before := Slots();
      users[i] := client;
      assert Slots() == before[i := Taken(client, client.nick)];
      ok := true;
    }

    method DeleteUser(client: User)
      modifies users
      ensures Slots() == Leave(old(Slots()), client)
    {
      ghost var before := Slots();
      for i := 0 to users.Length
        invariant Slots() == before && SlotFrom(before, client, 0) == SlotFrom(before, client, i)
      {
        if users[i] == client {
          users[i] := null;
          assert Slots() == before[i := Free];
          break;
        }
      }
    }

    /** update_nick looks for the nick the client already has, not for the new one. */
    method UpdateNick(newNick: string, client: User) returns (ok: bool)
      requires client.nick.Some?
      modifies client
      ensures ok == !InUse(old(Slots()), old(client.nick.value))
      ensures client.nick == if ok then Some(newNick) else old(client.nick)
    {
      var other := GetUser(client.nick.value);
      if other != null {
        return false;
      }
      client.nick := Some(newNick);
      ok := true;
    }

    method GetNumUsers() returns (n: nat)
      ensures n == Count(Slots(), users.Length)
    {
      n := 0;
      for i := 0 to users.Length
        invariant n == Count(Slots(), i)
      {
        if users[i] != null {
          n := n + 1;
        }
      }
    }
  }
}
