/** Client threads and the user table as steps in any order: a step is what one thread does while it
    holds the lock, or to its own record (irc/src/server.c:28-43, 171-218, irc/src/user.c). */
module Clients {
  import opened Common
  import opened UserTable

  type Id = nat

  /** What a thread is in the middle of: the early look for the nick and the write of it are two
      steps, and so are the write and the attempt to register. */
  datatype Phase = Idle | Checked(nick: string) | Completing | Finished

  datatype Client = Client(nick: Option<string>, named: bool, registered: bool, phase: Phase)

  datatype World = World(clients: map<Id, Client>, users: seq<Option<Id>>, entered: nat, left: nat)

  datatype Event =
    | Connect(c: Id)
    | CheckNick(c: Id, nick: string)
    | WriteNick(c: Id)
    | SetNames(c: Id)
    | OtherCommand(c: Id)
    | TryRegister(c: Id)
    | ChangeNick(c: Id, nick: string)
    | Quit(c: Id)

  /** The table as everyone sees it. */
  function SlotOf(w: World, u: Option<Id>): Slot<Id> {
    if u.None? then Free
    else Taken(u.value, if u.value in w.clients then w.clients[u.value].nick else None)
  }

  function Slots(w: World): (s: seq<Slot<Id>>)
    ensures |s| == |w.users|
    ensures forall i :: 0 <= i < |s| ==> s[i] == SlotOf(w, w.users[i])
  {
    seq(|w.users|, i requires 0 <= i < |w.users| => SlotOf(w, w.users[i]))
  }

  const START: World := World(map[], seq(MAX_USERS, _ => None), 0, 0)

  predicate Complete(k: Client) {
    k.nick.Some? && k.named
  }

  /** A client that can be registered finds a free slot. */
  predicate Fits(w: World, k: Client) {
    Complete(k) && !InUse(Slots(w), k.nick.value) ==> HasRoom(Slots(w))
  }

  /** A thread registers its client only with room in the table, and does nothing after a registered
      client's QUIT, which frees its record. */
  predicate Enabled(w: World, e: Event) {
    if e.Connect? then e.c !in w.clients
    else
      e.c in w.clients &&
      var k := w.clients[e.c];
      match e
      case CheckNick(_, _) => !k.registered && k.phase == Idle
      case WriteNick(_) => k.phase.Checked?
      case SetNames(_) => !k.registered && k.phase == Idle
      case OtherCommand(_) => !k.registered && k.phase == Idle
      case TryRegister(_) => k.phase == Completing && Fits(w, k)
      case ChangeNick(_, _) => k.registered && k.phase == Idle
      case Quit(_) => k.phase == Idle
  }

  function With(w: World, c: Id, k: Client): World {
    w.(clients := w.clients[c := k])
  }

  function Next(w: World, e: Event): World
    requires Enabled(w, e)
  {
    if e.Connect? then With(w, e.c, Client(None, false, false, Idle))
    else
      var k := w.clients[e.c];
      match e
      case CheckNick(c, nick) => With(w, c, k.(phase := if InUse(Slots(w), nick) then Completing else Checked(nick)))
      case WriteNick(c) => With(w, c, k.(nick := Some(k.phase.nick), phase := Completing))
      case SetNames(c) => With(w, c, k.(named := true, phase := Completing))
      case OtherCommand(c) => With(w, c, k.(phase := Completing))
      case TryRegister(c) => Register(w, c)
      case ChangeNick(c, nick) => if InUse(Slots(w), NickOf(k)) then w else With(w, c, k.(nick := Some(nick)))
      case Quit(c) => if k.registered then Remove(w, c) else With(w, c, k.(phase := Completing))
  }

  function NickOf(k: Client): string {
    if k.nick.Some? then k.nick.value else ""
  }

  function Register(w: World, c: Id): World
    requires c in w.clients && Fits(w, w.clients[c])
  {
    var k := w.clients[c];
    if !Complete(k) || InUse(Slots(w), k.nick.value) then With(w, c, k.(phase := Idle))
    else
      With(w, c, k.(phase := Idle, registered := true))
        .(users := w.users[FreeFrom(Slots(w), 0) := Some(c)], entered := w.entered + 1)
  }

  function Remove(w: World, c: Id): World
    requires c in w.clients
  {
    var i := SlotFrom(Slots(w), c, 0);
    With(w, c, w.clients[c].(phase := Finished))
      .(users := if i < |w.users| then w.users[i := None] else w.users,
        left := if i < |w.users| then w.left + 1 else w.left)
  }

  /** A registered client that has not quit. */
  predicate Present(k: Client) {
    k.registered && k.nick.Some? && k.phase == Idle
  }

  ghost predicate UsersOk(w: World) {
    forall i :: 0 <= i < |w.users| && w.users[i].Some? ==>
      w.users[i].value in w.clients && Present(w.clients[w.users[i].value])
  }

  /** No two slots hold the same client or the same nick. */
  ghost predicate Unique(w: World) {
    forall i, j :: 0 <= i < j < |w.users| && w.users[i].Some? && w.users[j].Some? ==>
      w.users[i] != w.users[j] && Slots(w)[i].nick != Slots(w)[j].nick
  }

  /** A registered client is in the table until it quits. */
  ghost predicate Listed(w: World) {
    forall c :: c in w.clients && w.clients[c].registered && w.clients[c].phase != Finished ==>
      w.clients[c].phase == Idle && SlotFrom(Slots(w), c, 0) < |w.users|
  }

  ghost predicate Inv(w: World) {
    && |w.users| == 100 && UsersOk(w) && Unique(w) && Listed(w)
    && w.entered == w.left + Count(Slots(w), |w.users|)
  }

  lemma StartOk()
    ensures Inv(START)
  {
    NoneTaken(Slots(START), MAX_USERS);
  }

  lemma {:induction false} NoneTaken(slots: seq<Slot<Id>>, n: nat)
    requires n <= |slots| && forall i :: 0 <= i < |slots| ==> slots[i].Free?
    ensures Count(slots, n) == 0
  {
    if n > 0 {
      NoneTaken(slots, n - 1);
    }
  }

  lemma SlotThere(w: World, i: nat, c: Id)
    requires i < |w.users| && w.users[i] == Some(c)
    ensures SlotFrom(Slots(w), c, 0) <= i
  {
    assert Slots(w)[i] == SlotOf(w, Some(c));
  }

  lemma SlotIs(w: World, c: Id)
    requires SlotFrom(Slots(w), c, 0) < |w.users|
    ensures w.users[SlotFrom(Slots(w), c, 0)] == Some(c)
  {
    var i := SlotFrom(Slots(w), c, 0);
    assert Slots(w)[i] == SlotOf(w, w.users[i]);
  }

  /** A client that is not registered is not in the table, and what it does to its own record nobody
      sees there. */
  lemma OwnStep(w: World, c: Id, k: Client)
    requires Inv(w) && (c in w.clients ==> !w.clients[c].registered) && !k.registered
    ensures Inv(With(w, c, k)) && Slots(With(w, c, k)) == Slots(w)
  {
    var w' := With(w, c, k);
    forall i | 0 <= i < |w.users|
      ensures w.users[i] != Some(c) && Slots(w')[i] == Slots(w)[i]
    {
      assert w.users[i].Some? ==> Present(w.clients[w.users[i].value]);
    }
    assert Slots(w') == Slots(w);
  }

  /** A registered client always finds its own nick in the table: changing it is refused. */
  lemma NickStays(w: World, c: Id, nick: string)
    requires Inv(w) && Enabled(w, ChangeNick(c, nick))
    ensures InUse(Slots(w), NickOf(w.clients[c])) && Next(w, ChangeNick(c, nick)) == w
  {
    var i := SlotFrom(Slots(w), c, 0);
    SlotIs(w, c);
    assert Present(w.clients[c]);
    assert Slots(w)[i] == Taken(c, w.clients[c].nick);
  }

  /** The steps on the table are the operations of the user table. */
  lemma StepsAreOperations(w: World, c: Id)
    requires Inv(w) && c in w.clients
    ensures w.clients[c].phase == Completing && Complete(w.clients[c]) && Fits(w, w.clients[c]) ==>
              Slots(Register(w, c)) == Enter(Slots(w), c, w.clients[c].nick.value)
    ensures w.clients[c].phase == Idle ==> Slots(Next(w, Quit(c))) == Leave(Slots(w), c)
  {
    var k := w.clients[c];
    if k.phase == Completing && Complete(k) && Fits(w, k) {
      NotListed(w, c);
      assert Slots(Register(w, c)) == Enter(Slots(w), c, k.nick.value);
    }
    if k.phase == Idle {
      var i := SlotFrom(Slots(w), c, 0);
      if i < |w.users| {
        SlotIs(w, c);
        assert Present(k);
      }
      if !k.registered {
        OwnStep(w, c, k.(phase := Completing));
      }
      assert Slots(Next(w, Quit(c))) == Leave(Slots(w), c);
    }
  }

  lemma NotListed(w: World, c: Id)
    requires Inv(w) && c in w.clients && w.clients[c].phase != Idle
    ensures forall i :: 0 <= i < |w.users| ==> w.users[i] != Some(c)
  {
    assert forall i :: 0 <= i < |w.users| && w.users[i].Some? ==> Present(w.clients[w.users[i].value]);
  }

  lemma RegisterOk(w: World, c: Id)
    requires Inv(w) && Enabled(w, TryRegister(c))
    ensures Inv(Register(w, c))
  {
    var k, slots := w.clients[c], Slots(w);
    NotListed(w, c);
    if k.registered {
      assert false;
    } else if !Complete(k) || InUse(slots, k.nick.value) {
      OwnStep(w, c, k.(phase := Idle));
    } else {
      var w', f := Register(w, c), FreeFrom(slots, 0);
      StepsAreOperations(w, c);
      CountUpdate(slots, f, Taken(c, k.nick), |slots|);
      assert w.users[f].None?;
      forall d | d in w'.clients && w'.clients[d].registered && w'.clients[d].phase != Finished
        ensures w'.clients[d].phase == Idle && SlotFrom(Slots(w'), d, 0) < |w'.users|
      {
        if d == c {
          SlotThere(w', f, c);
        } else {
          SlotIs(w, d);
          SlotThere(w', SlotFrom(slots, d, 0), d);
        }
      }
      EnterUnique(w, c);
    }
  }

  lemma EnterUnique(w: World, c: Id)
    requires Inv(w) && Enabled(w, TryRegister(c)) && Complete(w.clients[c]) && !InUse(Slots(w), w.clients[c].nick.value)
    ensures Unique(Register(w, c)) && UsersOk(Register(w, c))
  {
    var w', f := Register(w, c), FreeFrom(Slots(w), 0);
    NotListed(w, c);
    StepsAreOperations(w, c);
    forall i | 0 <= i < |w.users| && i != f
      ensures w'.users[i] == w.users[i] && Slots(w')[i] == Slots(w)[i]
      ensures w.users[i].Some? ==> Slots(w)[i].nick != w.clients[c].nick
    {
    }
  }

  lemma OnlySlot(w: World, c: Id, j: nat)
    requires Inv(w) && j < |w.users|
    ensures w.users[j] == Some(c) <==> j == SlotFrom(Slots(w), c, 0)
  {
    var i := SlotFrom(Slots(w), c, 0);
    if i < |w.users| {
      SlotIs(w, c);
    }
    if w.users[j] == Some(c) {
      SlotThere(w, j, c);
    }
  }

  lemma QuitOk(w: World, c: Id)
    requires Inv(w) && Enabled(w, Quit(c)) && w.clients[c].registered
    ensures Inv(Remove(w, c))
  {
    var k, slots, i := w.clients[c], Slots(w), SlotFrom(Slots(w), c, 0);
    var w' := Remove(w, c);
    StepsAreOperations(w, c);
    if i < |w.users| {
      SlotIs(w, c);
      CountUpdate(slots, i, Free, |slots|);
    }
    forall j | 0 <= j < |w.users| && w'.users[j].Some?
      ensures w'.users[j] == w.users[j] && w'.users[j] != Some(c) && Slots(w')[j] == Slots(w)[j]
    {
      OnlySlot(w, c, j);
    }
    forall d | d in w'.clients && w'.clients[d].registered && w'.clients[d].phase != Finished
      ensures w'.clients[d].phase == Idle && SlotFrom(Slots(w'), d, 0) < |w'.users|
    {
      SlotIs(w, d);
      SlotThere(w', SlotFrom(slots, d, 0), d);
    }
  }

  /** Every step of every thread keeps nicks and clients unique and the count right. */
  lemma StepOk(w: World, e: Event)
    requires Inv(w) && Enabled(w, e)
    ensures Inv(Next(w, e))
  {
    match e
    case Connect(c) => OwnStep(w, c, Client(None, false, false, Idle));
    case CheckNick(c, nick) => OwnStep(w, c, Next(w, e).clients[c]);
    case WriteNick(c) => Unlisted(w, c); OwnStep(w, c, Next(w, e).clients[c]);
    case SetNames(c) => OwnStep(w, c, Next(w, e).clients[c]);
    case OtherCommand(c) => OwnStep(w, c, Next(w, e).clients[c]);
    case TryRegister(c) => RegisterOk(w, c);
    case ChangeNick(c, nick) => NickStays(w, c, nick);
    case Quit(c) =>
      if w.clients[c].registered { QuitOk(w, c); } else { OwnStep(w, c, Next(w, e).clients[c]); }
  }

  lemma Unlisted(w: World, c: Id)
    requires Inv(w) && c in w.clients && w.clients[c].phase != Idle && w.clients[c].phase != Finished
    ensures !w.clients[c].registered
  {
  }

  /** A run: steps of any threads in any order. */
  ghost predicate Run(w: World, events: seq<Event>, w': World)
    decreases |events|
  {
    if events == [] then w' == w
    else Enabled(w, events[0]) && Run(Next(w, events[0]), events[1..], w')
  }

  lemma {:induction false} RunOk(w: World, events: seq<Event>, w': World)
    requires Inv(w) && Run(w, events, w')
    ensures Inv(w')
    decreases |events|
  {
    if events != [] {
      StepOk(w, events[0]);
      RunOk(Next(w, events[0]), events[1..], w');
    }
  }

  /** In every interleaving no two slots hold the same nick or the same client, and the number of
      users is the number of registrations less the number of departures. */
  lemma ReachableOk(events: seq<Event>, w: World)
    requires Run(START, events, w)
    ensures forall i, j :: 0 <= i < j < |w.users| && w.users[i].Some? && w.users[j].Some? ==>
              w.users[i] != w.users[j] && Slots(w)[i].nick != Slots(w)[j].nick
    ensures Count(Slots(w), |w.users|) == w.entered - w.left
  {
    StartOk();
    RunOk(START, events, w);
  }

  /** Two clients can both pass the early look for the same free nick; the look under the lock then
      lets in only the one that comes first. */
  lemma EarlyCheckIsNotEnough(w: World, c: Id, d: Id, nick: string)
    requires Inv(w) && c in w.clients && d in w.clients && c != d && !InUse(Slots(w), nick) && HasRoom(Slots(w))
    requires forall x :: x in {c, d} ==> w.clients[x].(nick := None) == Client(None, true, false, Idle)
    ensures var v := Both(w, c, d, nick);
            && Run(w, [CheckNick(c, nick), CheckNick(d, nick), WriteNick(c), WriteNick(d)], v)
            && v.clients[c] == v.clients[d] == Client(Some(nick), true, false, Completing)
            && Enabled(v, TryRegister(c)) && Register(v, c).clients[c].registered
            && InUse(Slots(Register(v, c)), nick) && !Register(Register(v, c), d).clients[d].registered
  {
    var w1 := Next(w, CheckNick(c, nick));
    OwnStep(w, c, w1.clients[c]);
    var w2 := Next(w1, CheckNick(d, nick));
    OwnStep(w1, d, w2.clients[d]);
    var w3 := Next(w2, WriteNick(c));
    OwnStep(w2, c, w3.clients[c]);
    var w4 := Next(w3, WriteNick(d));
    OwnStep(w3, d, w4.clients[d]);
    assert w4 == Both(w, c, d, nick);
    RunFour(w, CheckNick(c, nick), CheckNick(d, nick), WriteNick(c), WriteNick(d));
    FirstWins(w4, c, d, nick);
  }

  /** The look under the lock refuses the second of two clients with one nick. */
  lemma FirstWins(v: World, c: Id, d: Id, nick: string)
    requires Inv(v) && c in v.clients && d in v.clients && c != d && !InUse(Slots(v), nick) && HasRoom(Slots(v))
    requires v.clients[c] == v.clients[d] == Client(Some(nick), true, false, Completing)
    ensures Enabled(v, TryRegister(c)) && Register(v, c).clients[c].registered
    ensures InUse(Slots(Register(v, c)), nick) && !Register(Register(v, c), d).clients[d].registered
  {
    StepsAreOperations(v, c);
    var f := FreeFrom(Slots(v), 0);
    assert Slots(Register(v, c))[f] == Taken(c, Some(nick));
  }

  function Both(w: World, c: Id, d: Id, nick: string): World {
    With(With(w, c, Client(Some(nick), true, false, Completing)), d, Client(Some(nick), true, false, Completing))
  }

  /** No client is stuck before it has quit: between two commands it can give any, what it has begun it
      can finish, and only a full table holds up a client whose nick is new. */
  lemma NobodyIsStuck(w: World, c: Id, nick: string)
    requires Inv(w) && c in w.clients
    ensures var k := w.clients[c];
            match k.phase
            case Idle =>
              && Enabled(w, Quit(c)) && (k.registered ==> Enabled(w, ChangeNick(c, nick)))
              && (!k.registered ==>
                    Enabled(w, CheckNick(c, nick)) && Enabled(w, SetNames(c)) && Enabled(w, OtherCommand(c)))
            case Checked(_) => Enabled(w, WriteNick(c))
            case Completing => HasRoom(Slots(w)) ==> Enabled(w, TryRegister(c))
            case Finished => SlotFrom(Slots(w), c, 0) == |w.users|
  {
    if w.clients[c].phase == Finished {
      NotListed(w, c);
      if SlotFrom(Slots(w), c, 0) < |w.users| {
        SlotIs(w, c);
      }
    }
  }

  /** Nobody else sees a step but through the table. */
  lemma OthersStay(w: World, e: Event, d: Id)
    requires Enabled(w, e) && d in w.clients && d != e.c
    ensures d in Next(w, e).clients && Next(w, e).clients[d] == w.clients[d]
  {
  }

  /** A nick that somebody has is refused: the client keeps what it had, and the attempt to register
      follows. */
  lemma TakenNickRefused(w: World, c: Id, nick: string)
    requires Enabled(w, CheckNick(c, nick)) && InUse(Slots(w), nick)
    ensures var k := Next(w, CheckNick(c, nick)).clients[c];
            k.nick == w.clients[c].nick && k.named == w.clients[c].named && !k.registered && k.phase == Completing
    ensures Next(w, CheckNick(c, nick)).users == w.users
  {
  }

  /** So it does after any other command of an unregistered client, a QUIT included, that does not leave
      a nick to be written first. */
  lemma AttemptFollows(w: World, e: Event)
    requires Enabled(w, e) && e.c in w.clients && !w.clients[e.c].registered
    requires e.SetNames? || e.OtherCommand? || e.Quit? || e.WriteNick?
    ensures var k, k' := w.clients[e.c], Next(w, e).clients[e.c];
            && k'.phase == Completing && !k'.registered && Next(w, e).users == w.users
            && k'.named == (k.named || e.SetNames?)
            && k'.nick == if e.WriteNick? then Some(k.phase.nick) else k.nick
  {
  }

  /** The attempt succeeds if and only if the client has a nick and its names and nobody in the table
      has the nick.  Otherwise the table stays as it is. */
  lemma AttemptIff(w: World, c: Id)
    requires Inv(w) && Enabled(w, TryRegister(c))
    ensures var v := Next(w, TryRegister(c));
            && (v.clients[c].registered <==>
                  && w.clients[c].nick.Some? && w.clients[c].named
                  && forall i :: 0 <= i < |w.users| && w.users[i].Some? ==>
                       w.clients[w.users[i].value].nick != w.clients[c].nick)
            && v.clients[c] == w.clients[c].(phase := Idle, registered := v.clients[c].registered)
            && (!v.clients[c].registered ==> v.users == w.users)
  {
    NotListed(w, c);
    forall i | 0 <= i < |w.users| && w.users[i].Some?
      ensures Slots(w)[i] == Taken(w.users[i].value, w.clients[w.users[i].value].nick)
    {
      assert Present(w.clients[w.users[i].value]);
    }
  }

  /** A registered client that quits leaves its slot, and only that one. */
  lemma QuitLeaves(w: World, c: Id)
    requires Inv(w) && Enabled(w, Quit(c)) && w.clients[c].registered
    ensures var v := Next(w, Quit(c));
            && v.clients[c].phase == Finished && v.left == w.left + 1
            && forall i :: 0 <= i < |w.users| ==> v.users[i] == if w.users[i] == Some(c) then None else w.users[i]
  {
    forall i | 0 <= i < |w.users|
      ensures w.users[i] == Some(c) <==> i == SlotFrom(Slots(w), c, 0)
    {
      OnlySlot(w, c, i);
    }
  }

  /** A client that connects, takes a free nick and gives its names is registered at the second attempt:
      it enters the first free slot, and the rest of the table and all other clients stay. */
  lemma NickThenNames(w: World, c: Id, nick: string)
    requires Inv(w) && c in w.clients && w.clients[c] == Client(None, false, false, Idle)
    requires !InUse(Slots(w), nick) && HasRoom(Slots(w))
    ensures var v := Registered(w, c, nick);
            && Run(w, [CheckNick(c, nick), WriteNick(c), TryRegister(c), SetNames(c), TryRegister(c)], v)
            && Slots(v) == Slots(w)[FreeFrom(Slots(w), 0) := Taken(c, Some(nick))]
  {
    var w1, w2 := With(w, c, Client(None, false, false, Checked(nick))),
                  With(w, c, Client(Some(nick), false, false, Completing));
    var w3, w4 := With(w, c, Client(Some(nick), false, false, Idle)),
                  With(w, c, Client(Some(nick), true, false, Completing));
    OwnStep(w, c, w1.clients[c]);
    OwnStep(w, c, w2.clients[c]);
    OwnStep(w, c, w3.clients[c]);
    assert Next(w, CheckNick(c, nick)) == w1;
    assert Next(w1, WriteNick(c)) == w2;
    assert Next(w2, TryRegister(c)) == w3;
    assert Next(w3, SetNames(c)) == w4;
    RegistersAt(w, c, nick);
    RunFive(w, CheckNick(c, nick), w1, WriteNick(c), w2, TryRegister(c), w3, SetNames(c), w4, TryRegister(c));
  }

  /** So is one that gives its names first. */
  lemma NamesThenNick(w: World, c: Id, nick: string)
    requires Inv(w) && c in w.clients && w.clients[c] == Client(None, false, false, Idle)
    requires !InUse(Slots(w), nick) && HasRoom(Slots(w))
    ensures var v := Registered(w, c, nick);
            && Run(w, [SetNames(c), TryRegister(c), CheckNick(c, nick), WriteNick(c), TryRegister(c)], v)
            && Slots(v) == Slots(w)[FreeFrom(Slots(w), 0) := Taken(c, Some(nick))]
  {
    var w1, w2 := With(w, c, Client(None, true, false, Completing)), With(w, c, Client(None, true, false, Idle));
    var w3, w4 := With(w, c, Client(None, true, false, Checked(nick))),
                  With(w, c, Client(Some(nick), true, false, Completing));
    OwnStep(w, c, w1.clients[c]);
    OwnStep(w, c, w2.clients[c]);
    OwnStep(w, c, w3.clients[c]);
    assert Next(w, SetNames(c)) == w1;
    assert Next(w1, TryRegister(c)) == w2;
    assert Next(w2, CheckNick(c, nick)) == w3;
    assert Next(w3, WriteNick(c)) == w4;
    RegistersAt(w, c, nick);
    RunFive(w, SetNames(c), w1, TryRegister(c), w2, CheckNick(c, nick), w3, WriteNick(c), w4, TryRegister(c));
  }

  /** The world with c registered under the nick, in the first free slot. */
  function Registered(w: World, c: Id, nick: string): World
    requires HasRoom(Slots(w))
  {
    World(w.clients[c := Client(Some(nick), true, true, Idle)], w.users[FreeFrom(Slots(w), 0) := Some(c)],
          w.entered + 1, w.left)
  }

  lemma RegistersAt(w: World, c: Id, nick: string)
    requires Inv(w) && c in w.clients && !w.clients[c].registered && !InUse(Slots(w), nick) && HasRoom(Slots(w))
    ensures var w4 := With(w, c, Client(Some(nick), true, false, Completing));
            && Enabled(w4, TryRegister(c)) && Next(w4, TryRegister(c)) == Registered(w, c, nick)
            && Slots(Registered(w, c, nick)) == Slots(w)[FreeFrom(Slots(w), 0) := Taken(c, Some(nick))]
  {
    var w4 := With(w, c, Client(Some(nick), true, false, Completing));
    OwnStep(w, c, w4.clients[c]);
    StepsAreOperations(w4, c);
    assert Next(w4, TryRegister(c)) == Registered(w, c, nick);
  }

  lemma RunCons(w: World, e: Event, u: World, events: seq<Event>, v: World)
    requires Enabled(w, e) && Next(w, e) == u && Run(u, events, v)
    ensures Run(w, [e] + events, v)
  {
    hide Next, Enabled;
    assert ([e] + events)[1..] == events;
  }

  lemma RunFive(w: World, a: Event, w1: World, b: Event, w2: World, c: Event, w3: World, d: Event, w4: World, e: Event)
    requires Enabled(w, a) && Next(w, a) == w1 && Enabled(w1, b) && Next(w1, b) == w2
    requires Enabled(w2, c) && Next(w2, c) == w3 && Enabled(w3, d) && Next(w3, d) == w4 && Enabled(w4, e)
    ensures Run(w, [a, b, c, d, e], Next(w4, e))
  {
    hide Next, Enabled;
    var v := Next(w4, e);
    RunCons(w4, e, v, [], v);
    RunCons(w3, d, w4, [e], v);
    RunCons(w2, c, w3, [d] + [e], v);
    RunCons(w1, b, w2, [c] + ([d] + [e]), v);
    RunCons(w, a, w1, [b] + ([c] + ([d] + [e])), v);
    assert [a] + ([b] + ([c] + ([d] + [e]))) == [a, b, c, d, e];
  }

  lemma RunFour(w: World, a: Event, b: Event, c: Event, d: Event)
    requires Enabled(w, a) && Enabled(Next(w, a), b) && Enabled(Next(Next(w, a), b), c)
    requires Enabled(Next(Next(Next(w, a), b), c), d)
    ensures Run(w, [a, b, c, d], Next(Next(Next(Next(w, a), b), c), d))
  {
    hide Next, Enabled;
    var w1, w2, w3 := Next(w, a), Next(Next(w, a), b), Next(Next(Next(w, a), b), c);
    var w4 := Next(w3, d);
    assert [a, b, c, d][1..] == [b, c, d] && [b, c, d][1..] == [c, d] && [c, d][1..] == [d] && [d][1..] == [];
    assert Run(w4, [], w4);
    assert Run(w3, [d], w4);
    assert Run(w2, [c, d], w4);
    assert Run(w1, [b, c, d], w4);
  }
}
