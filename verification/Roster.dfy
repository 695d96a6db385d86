/**
 * What the group operations of src/contact-list.c do, stated on the relation that clients see: which
 * contact is in which group. A contact that is in no group is not on the roster at all.
 *
 * Group names are compared in two ways. libpurple finds a group by collation key, so that several spellings find
 * the same group; the code that decides which groups a contact is to stay in compares spellings.
 */
module Roster {
  import opened Wrappers

  type Contact = nat

  /** The parts of the environment that names depend on: g_utf8_collate_key, purple_utf8_strip_unprintables and the
      translation of "Buddies". */
  datatype Locale = Locale(collate: string -> string, strip: string -> string, fallback: string) {
    predicate Collate(a: string, b: string) {
      collate(a) == collate(b)
    }

    /** A name that libpurple can store as it stands. */
    predicate Printable(name: string) {
      name != "" && strip(name) == name
    }

    ghost predicate Lawful() {
      && (forall s :: strip(strip(s)) == strip(s))
      && Printable(fallback)
    }
  }

  datatype Roster = Roster(groups: set<string>, members: set<(Contact, string)>)

  ghost predicate Valid(L: Locale, r: Roster) {
    && (forall g | g in r.groups :: L.Printable(g))
    && (forall g, g' | g in r.groups && g' in r.groups && L.Collate(g, g') :: g == g')
    && (forall h, g | (h, g) in r.members :: g in r.groups)
  }

  ghost function GroupsOf(r: Roster, h: Contact): set<string> {
    set g | g in r.groups && (h, g) in r.members
  }

  ghost function Contacts(r: Roster): set<Contact> {
    set m | m in r.members :: m.0
  }

  /** purple_find_group */
  ghost function Find(L: Locale, groups: set<string>, name: string): (g: Option<string>)
    ensures g.Some? ==> g.value in groups && L.Collate(g.value, name)
    ensures g.None? ==> forall k | k in groups :: !L.Collate(k, name)
  {
    if exists k :: k in groups && L.Collate(k, name) then
      var k :| k in groups && L.Collate(k, name);
      Some(k)
    else None
  }

  /** The stored name of the group that purple_group_new(name) returns. */
  ghost function Resolve(L: Locale, groups: set<string>, name: string): (g: string)
    ensures L.Collate(g, name)
    ensures g in groups || (g == name && Find(L, groups, name).None?)
  {
    match Find(L, groups, name)
    case Some(g) => g
    case None => name
  }

  lemma ResolveStored(L: Locale, r: Roster, name: string, g: string)
    requires Valid(L, r) && g in r.groups && L.Collate(g, name)
    ensures Resolve(L, r.groups, name) == g && Find(L, r.groups, name) == Some(g)
  {
    assert Find(L, r.groups, name).Some?;
  }

  // ----- The operations -----

  /** Puts contacts in a group, creating it if necessary. */
  ghost function Put(L: Locale, r: Roster, name: string, hs: set<Contact>): Roster {
    var g := Resolve(L, r.groups, name);
    Roster(r.groups + {g}, r.members + set h | h in hs :: (h, g))
  }

  ghost function PutInEach(L: Locale, r: Roster, names: seq<string>, h: Contact): Roster {
    if names == [] then r
    else Put(L, PutInEach(L, r, names[..|names| - 1], h), names[|names| - 1], {h})
  }

  ghost function Drop(r: Roster, g: string, hs: set<Contact>): Roster {
    r.(members := set m | m in r.members && !(m.0 in hs && m.1 == g))
  }

  /** Those of the contacts that are in the group and in no other. */
  ghost function Orphans(r: Roster, g: string, hs: set<Contact>): set<Contact> {
    set h | h in hs && (h, g) in r.members && GroupsOf(r, h) <= {g}
  }

  /** Removal would leave contacts in no group, and there is no group to move them to. */
  ghost predicate Blocked(L: Locale, r: Roster, name: string, hs: set<Contact>) {
    match Find(L, r.groups, name)
    case None => false
    case Some(g) => Orphans(r, g, hs) != {} && Resolve(L, r.groups, L.fallback) == g
  }

  /** The first phase of a removal: would-be orphans are put in the fallback group. */
  ghost function Prepare(L: Locale, r: Roster, name: string, hs: set<Contact>): Roster {
    match Find(L, r.groups, name)
    case None => r
    case Some(g) =>
      var orphans := Orphans(r, g, hs);
      if orphans == {} || Blocked(L, r, name, hs) then r else Put(L, r, L.fallback, orphans)
  }

  /** The second phase. */
  ghost function RemoveMany(L: Locale, r: Roster, name: string, hs: set<Contact>): Roster {
    match Find(L, r.groups, name)
    case None => r
    case Some(g) => Drop(r, g, hs)
  }

  ghost function MembersOf(L: Locale, r: Roster, name: string): set<Contact> {
    match Find(L, r.groups, name)
    case None => {}
    case Some(g) => set h | h in Contacts(r) && (h, g) in r.members
  }

  datatype Op =
    | AddToGroup(name: string, contacts: set<Contact>)
    | RemoveFromGroup(name: string, contacts: set<Contact>)
    | SetGroupMembers(name: string, contacts: set<Contact>)
    | SetContactGroups(contact: Contact, names: seq<string>)
    | RenameGroup(oldName: string, newName: string)

  datatype Outcome = Success | NotAvailable | DoesNotExist

  /** The names under which an operation may create a group are ones libpurple can store. */
  ghost predicate NamesPrintable(L: Locale, op: Op) {
    match op
    case AddToGroup(name, _) => L.Printable(name)
    case RemoveFromGroup(_, _) => true
    case SetGroupMembers(name, _) => L.Printable(name)
    case SetContactGroups(_, names) => forall n | n in names :: L.Printable(n)
    case RenameGroup(_, newName) => L.Printable(newName)
  }

  ghost function OutcomeOf(L: Locale, r: Roster, op: Op): Outcome {
    match op
    case AddToGroup(_, _) => Success
    case RemoveFromGroup(name, hs) => if Blocked(L, r, name, hs) then NotAvailable else Success
    case SetGroupMembers(name, hs) =>
      if Blocked(L, Put(L, r, name, {}), name, MembersOf(L, r, name) - hs) then NotAvailable else Success
    case SetContactGroups(_, _) => Success
    case RenameGroup(oldName, newName) =>
      if Find(L, r.groups, oldName).None? then DoesNotExist
      else if Find(L, r.groups, newName).Some? then NotAvailable
      else Success
  }

  ghost function Apply(L: Locale, r: Roster, op: Op): Roster {
    match op
    case AddToGroup(name, hs) => Put(L, r, name, hs)
    case RemoveFromGroup(name, hs) =>
      if Blocked(L, r, name, hs) then r else RemoveMany(L, Prepare(L, r, name, hs), name, hs)
    case SetGroupMembers(name, hs) => ReplaceMembers(L, r, name, hs)
    case SetContactGroups(h, names) => Regroup(L, r, h, WantedNames(L, names))
    case RenameGroup(oldName, newName) =>
      if OutcomeOf(L, r, op) != Success then r
      else Rename(r, Find(L, r.groups, oldName).value, newName)
  }

  ghost function ReplaceMembers(L: Locale, r: Roster, name: string, hs: set<Contact>): Roster {
    var outcasts := MembersOf(L, r, name) - hs;
    var created := Put(L, r, name, {});
    if Blocked(L, created, name, outcasts) then created
    else RemoveMany(L, Put(L, Prepare(L, created, name, outcasts), name, hs), name, outcasts)
  }

  ghost function WantedNames(L: Locale, names: seq<string>): seq<string> {
    if names == [] then [L.fallback] else names
  }

  /** The contact is put in every group named, then taken out of all whose stored name is not among the names. */
  ghost function Regroup(L: Locale, r: Roster, h: Contact, names: seq<string>): Roster {
    var added := PutInEach(L, r, names, h);
    added.(members := set m | m in added.members && (m.0 == h ==> m.1 in names))
  }

  ghost function Renamed(from: string, to: string, g: string): string {
    if g == from then to else g
  }

  ghost function Rename(r: Roster, from: string, to: string): Roster {
    Roster(set g | g in r.groups :: Renamed(from, to, g),
           set m | m in r.members :: (m.0, Renamed(from, to, m.1)))
  }

  // ----- The relation stays well-formed -----

  lemma PutKeepsValid(L: Locale, r: Roster, name: string, hs: set<Contact>)
    requires Valid(L, r) && L.Printable(name)
    ensures Valid(L, Put(L, r, name, hs))
  {
  }

  lemma {:induction false} PutInEachKeepsValid(L: Locale, r: Roster, names: seq<string>, h: Contact)
    requires Valid(L, r) && forall n | n in names :: L.Printable(n)
    ensures Valid(L, PutInEach(L, r, names, h))
  {
    if names != [] {
      PutInEachKeepsValid(L, r, names[..|names| - 1], h);
      PutKeepsValid(L, PutInEach(L, r, names[..|names| - 1], h), names[|names| - 1], {h});
    }
  }

  lemma ApplyKeepsValid(L: Locale, r: Roster, op: Op)
    requires L.Lawful() && Valid(L, r) && NamesPrintable(L, op)
    ensures Valid(L, Apply(L, r, op))
  {
    match op {
      case SetContactGroups(h, names) =>
        PutInEachKeepsValid(L, r, WantedNames(L, names), h);
      case AddToGroup(name, hs) =>
        PutKeepsValid(L, r, name, hs);
      case RemoveFromGroup(name, hs) =>
        PrepareKeepsValid(L, r, name, hs);
      case SetGroupMembers(name, hs) =>
        var outcasts := MembersOf(L, r, name) - hs;
        var created := Put(L, r, name, {});
        PutKeepsValid(L, r, name, {});
        PrepareKeepsValid(L, created, name, outcasts);
        PutKeepsValid(L, Prepare(L, created, name, outcasts), name, hs);
      case RenameGroup(_, _) =>
    }
  }

  lemma PrepareKeepsValid(L: Locale, r: Roster, name: string, hs: set<Contact>)
    requires L.Lawful() && Valid(L, r)
    ensures Valid(L, Prepare(L, r, name, hs))
  {
    match Find(L, r.groups, name) {
      case None =>
      case Some(g) => PutKeepsValid(L, r, L.fallback, Orphans(r, g, hs));
    }
  }

  // ----- What each operation does to the groups of every contact -----

  lemma PutExact(L: Locale, r: Roster, name: string, hs: set<Contact>, h: Contact)
    requires Valid(L, r)
    ensures var g := Resolve(L, r.groups, name);
            GroupsOf(Put(L, r, name, hs), h) == GroupsOf(r, h) + if h in hs then {g} else {}
  {
  }

  lemma InSomeGroup(L: Locale, r: Roster, h: Contact)
    requires Valid(L, r)
    ensures h in Contacts(r) <==> GroupsOf(r, h) != {}
  {
    if h in Contacts(r) {
      var m :| m in r.members && m.0 == h;
      assert (h, m.1) in r.members && m.1 in GroupsOf(r, h);
    }
    if GroupsOf(r, h) != {} {
      var g :| g in GroupsOf(r, h);
      assert (h, g).0 in Contacts(r);
    }
  }

  /** Adding contacts to a group gives just them just that group, the one the name finds if there is one; it always
      succeeds. */
  lemma AddExact(L: Locale, r: Roster, name: string, hs: set<Contact>, h: Contact)
    requires Valid(L, r)
    ensures var r' := Apply(L, r, AddToGroup(name, hs));
            && (h !in hs ==> GroupsOf(r', h) == GroupsOf(r, h))
            && (h in hs ==> forall g :: g in GroupsOf(r', h) <==>
                                        g in GroupsOf(r, h) || (g in r'.groups && L.Collate(g, name)))
            && (r'.groups == r.groups ||
                (r'.groups == r.groups + {name} && forall g | g in r.groups :: !L.Collate(g, name)))
            && (exists g | g in r'.groups :: L.Collate(g, name))
  {
    PutExact(L, r, name, hs, h);
    var g := Resolve(L, r.groups, name);
    assert g in Put(L, r, name, hs).groups;
    forall k | k in r.groups && L.Collate(k, name)
      ensures k == g
    {
      ResolveStored(L, r, name, k);
    }
  }

  /** Removing contacts from a group: would-be orphans end in exactly the fallback group, the others lose exactly
      that group, and contacts not asked for keep theirs. */
  lemma RemoveExact(L: Locale, r: Roster, name: string, hs: set<Contact>, h: Contact)
    requires L.Lawful() && Valid(L, r) && Find(L, r.groups, name).Some? && !Blocked(L, r, name, hs)
    ensures var g := Find(L, r.groups, name).value;
            GroupsOf(Apply(L, r, RemoveFromGroup(name, hs)), h) ==
            if h !in hs then GroupsOf(r, h)
            else if GroupsOf(r, h) == {g} then {Resolve(L, r.groups, L.fallback)}
            else GroupsOf(r, h) - {g}
  {
    var g := Find(L, r.groups, name).value;
    var prepared := Prepare(L, r, name, hs);
    PrepareKeepsValid(L, r, name, hs);
    ResolveStored(L, prepared, name, g);
    var orphans := Orphans(r, g, hs);
    assert h in orphans <==> h in hs && GroupsOf(r, h) == {g};
    if orphans != {} {
      PutExact(L, r, L.fallback, orphans, h);
    }
    DropExact(prepared, g, hs, h);
  }

  lemma DropExact(r: Roster, g: string, hs: set<Contact>, h: Contact)
    ensures GroupsOf(Drop(r, g, hs), h) == GroupsOf(r, h) - if h in hs then {g} else {}
  {
  }

  /** A removal fails exactly when the group is the one orphans would go to and some of the contacts have no other. */
  lemma RemoveFails(L: Locale, r: Roster, name: string, hs: set<Contact>)
    requires L.Lawful() && Valid(L, r)
    ensures OutcomeOf(L, r, RemoveFromGroup(name, hs)) == NotAvailable <==>
            && L.Collate(name, L.fallback)
            && exists h, g :: h in hs && GroupsOf(r, h) == {g} && L.Collate(g, name)
    ensures Blocked(L, r, name, hs) ==> Apply(L, r, RemoveFromGroup(name, hs)) == r
  {
    match Find(L, r.groups, name) {
      case None =>
        forall h, g | GroupsOf(r, h) == {g}
          ensures !L.Collate(g, name)
        {
          assert g in GroupsOf(r, h);
        }
      case Some(g) =>
        ResolvesTo(L, r, L.fallback, g);
        forall h
          ensures h in Orphans(r, g, hs) <==> h in hs && GroupsOf(r, h) == {g}
        {
        }
        if Blocked(L, r, name, hs) {
          var h :| h in Orphans(r, g, hs);
          assert GroupsOf(r, h) == {g};
        }
        forall h, k | h in hs && GroupsOf(r, h) == {k} && L.Collate(k, name)
          ensures k == g && h in Orphans(r, g, hs)
        {
          assert k in GroupsOf(r, h);
        }
    }
  }

  lemma ResolvesTo(L: Locale, r: Roster, name: string, g: string)
    requires Valid(L, r) && g in r.groups
    ensures Resolve(L, r.groups, name) == g <==> L.Collate(g, name)
  {
    if L.Collate(g, name) {
      ResolveStored(L, r, name, g);
    }
  }

  /** Setting the members of a group: the members become exactly the requested contacts; outcasts with no other group
      end in exactly the fallback group; nobody else's groups change. */
  lemma ReplaceExact(L: Locale, r: Roster, name: string, hs: set<Contact>, h: Contact)
    requires L.Lawful() && Valid(L, r) && L.Printable(name)
    requires OutcomeOf(L, r, SetGroupMembers(name, hs)) == Success
    ensures var g := Resolve(L, r.groups, name);
            GroupsOf(Apply(L, r, SetGroupMembers(name, hs)), h) ==
            if h in hs then GroupsOf(r, h) + {g}
            else if GroupsOf(r, h) == {g} then {Resolve(L, r.groups, L.fallback)}
            else GroupsOf(r, h) - {g}
  {
    var g := Resolve(L, r.groups, name);
    var created := Put(L, r, name, {});
    var outcasts := MembersOf(L, r, name) - hs;
    PutKeepsValid(L, r, name, {});
    PutExact(L, r, name, {}, h);
    ResolveStored(L, created, name, g);
    MembersExact(L, r, name, h);
    var prepared := Prepare(L, created, name, outcasts);
    PrepareKeepsValid(L, created, name, outcasts);
    ResolveStored(L, prepared, name, g);
    var orphans := Orphans(created, g, outcasts);
    assert h in orphans <==> h in outcasts && GroupsOf(created, h) == {g};
    if orphans != {} {
      assert g in r.groups && created.groups == r.groups;
      PutExact(L, created, L.fallback, orphans, h);
    }
    var added := Put(L, prepared, name, hs);
    PutKeepsValid(L, prepared, name, hs);
    PutExact(L, prepared, name, hs, h);
    ResolveStored(L, added, name, g);
    DropExact(added, g, outcasts, h);
  }

  lemma MembersExact(L: Locale, r: Roster, name: string, h: Contact)
    requires Valid(L, r)
    ensures h in MembersOf(L, r, name) <==> Resolve(L, r.groups, name) in GroupsOf(r, h)
  {
    var g := Resolve(L, r.groups, name);
    if (h, g) in r.members {
      assert (h, g).0 in Contacts(r);
      assert Find(L, r.groups, name).Some?;
    }
  }

  lemma ReplaceSetsMembers(L: Locale, r: Roster, name: string, hs: set<Contact>)
    requires L.Lawful() && Valid(L, r) && L.Printable(name)
    requires OutcomeOf(L, r, SetGroupMembers(name, hs)) == Success
    ensures MembersOf(L, Apply(L, r, SetGroupMembers(name, hs)), name) == hs
  {
    var r' := Apply(L, r, SetGroupMembers(name, hs));
    var g := Resolve(L, r.groups, name);
    ApplyKeepsValid(L, r, SetGroupMembers(name, hs));
    ReplaceKeepsGroup(L, r, name, hs);
    ResolveStored(L, r', name, g);
    forall h
      ensures h in MembersOf(L, r', name) <==> h in hs
    {
      MembersExact(L, r', name, h);
      ReplaceExact(L, r, name, hs, h);
      ReplaceFails(L, r, name, hs);
      if h !in hs && GroupsOf(r, h) == {g} && Resolve(L, r.groups, L.fallback) == g {
        assert L.Collate(name, L.fallback);
        assert false;
      }
    }
  }

  lemma ReplaceKeepsGroup(L: Locale, r: Roster, name: string, hs: set<Contact>)
    requires L.Lawful() && Valid(L, r) && L.Printable(name)
    requires OutcomeOf(L, r, SetGroupMembers(name, hs)) == Success
    ensures Resolve(L, r.groups, name) in Apply(L, r, SetGroupMembers(name, hs)).groups
  {
    var g := Resolve(L, r.groups, name);
    var created := Put(L, r, name, {});
    var outcasts := MembersOf(L, r, name) - hs;
    assert g in created.groups;
    assert created.groups <= Prepare(L, created, name, outcasts).groups;
  }

  /** It fails exactly when the group is the one orphans would go to and some outcast has no other; then nothing
      has changed. */
  lemma ReplaceFails(L: Locale, r: Roster, name: string, hs: set<Contact>)
    requires L.Lawful() && Valid(L, r) && L.Printable(name)
    ensures OutcomeOf(L, r, SetGroupMembers(name, hs)) == NotAvailable <==>
            && L.Collate(name, L.fallback)
            && exists h, g :: h !in hs && GroupsOf(r, h) == {g} && L.Collate(g, name)
    ensures OutcomeOf(L, r, SetGroupMembers(name, hs)) != Success ==> Apply(L, r, SetGroupMembers(name, hs)) == r
  {
    var g := Resolve(L, r.groups, name);
    var created := Put(L, r, name, {});
    var outcasts := MembersOf(L, r, name) - hs;
    PutKeepsValid(L, r, name, {});
    RemoveFails(L, created, name, outcasts);
    forall h
      ensures GroupsOf(created, h) == GroupsOf(r, h)
      ensures h in MembersOf(L, r, name) <==> g in GroupsOf(r, h)
    {
      PutExact(L, r, name, {}, h);
      MembersExact(L, r, name, h);
    }
    if Blocked(L, created, name, outcasts) {
      var h, k :| h in outcasts && GroupsOf(created, h) == {k} && L.Collate(k, name);
      assert GroupsOf(r, h) == {k};
      assert g in GroupsOf(r, h);
      assert created == r;
    }
    forall h, k | h !in hs && GroupsOf(r, h) == {k} && L.Collate(k, name)
      ensures h in outcasts && GroupsOf(created, h) == {k}
    {
      assert k in GroupsOf(r, h);
      ResolveStored(L, r, name, k);
    }
  }

  // ----- Setting the groups of one contact -----

  lemma {:induction false} PutInEachExact(L: Locale, r: Roster, names: seq<string>, h: Contact)
    requires Valid(L, r) && forall n | n in names :: L.Printable(n)
    ensures var r' := PutInEach(L, r, names, h);
            && r.groups <= r'.groups
            && (forall g | g in r'.groups :: g in r.groups || g in names)
            && (forall n | n in names :: Find(L, r'.groups, n).Some? && Resolve(L, r'.groups, n) in GroupsOf(r', h))
            && (forall g | g in GroupsOf(r', h) :: g in GroupsOf(r, h) || exists n :: n in names && L.Collate(g, n))
            && GroupsOf(r, h) <= GroupsOf(r', h)
            && (forall k | k != h :: GroupsOf(r', k) == GroupsOf(r, k))
  {
    if names != [] {
      var n := names[|names| - 1];
      var before := PutInEach(L, r, names[..|names| - 1], h);
      var r' := PutInEach(L, r, names, h);
      PutInEachExact(L, r, names[..|names| - 1], h);
      PutInEachKeepsValid(L, r, names[..|names| - 1], h);
      PutInEachKeepsValid(L, r, names, h);
      forall m | m in names
        ensures Find(L, r'.groups, m).Some? && Resolve(L, r'.groups, m) in GroupsOf(r', h)
      {
        var g := Resolve(L, before.groups, m);
        if m != n {
          assert m in names[..|names| - 1];
          ResolveStored(L, r', m, g);
        } else {
          ResolveStored(L, r', n, g);
        }
      }
    }
  }

  /** The contact ends in exactly those groups whose stored name is one of the names; nobody else is touched. */
  lemma RegroupExact(L: Locale, r: Roster, h: Contact, names: seq<string>)
    requires L.Lawful() && Valid(L, r) && NamesPrintable(L, SetContactGroups(h, names))
    ensures var r' := Apply(L, r, SetContactGroups(h, names));
            && GroupsOf(r', h) == (set n | n in WantedNames(L, names) && n in r'.groups)
            && (forall k | k != h :: GroupsOf(r', k) == GroupsOf(r, k))
  {
    var wanted := WantedNames(L, names);
    var added := PutInEach(L, r, wanted, h);
    var r' := Apply(L, r, SetContactGroups(h, names));
    PutInEachExact(L, r, wanted, h);
    PutInEachKeepsValid(L, r, wanted, h);
    forall n | n in wanted && n in r'.groups
      ensures n in GroupsOf(r', h)
    {
      ResolveStored(L, added, n, n);
    }
    forall k | k != h
      ensures GroupsOf(r', k) == GroupsOf(added, k)
    {
    }
  }

  /** The name is spelled as the group it finds is stored, or finds no group. */
  ghost predicate Spelled(L: Locale, r: Roster, name: string) {
    Find(L, r.groups, name).None? || name in r.groups
  }

  /** Given names spelled as stored, the contact's groups are exactly those the names denote. */
  lemma RegroupSpelled(L: Locale, r: Roster, h: Contact, names: seq<string>)
    requires L.Lawful() && Valid(L, r) && NamesPrintable(L, SetContactGroups(h, names))
    requires forall n | n in WantedNames(L, names) :: Spelled(L, r, n)
    ensures var r' := Apply(L, r, SetContactGroups(h, names));
            && GroupsOf(r', h) == (set n | n in WantedNames(L, names) :: Resolve(L, r'.groups, n))
            && GroupsOf(r', h) != {}
  {
    var wanted := WantedNames(L, names);
    var r' := Apply(L, r, SetContactGroups(h, names));
    RegroupExact(L, r, h, names);
    PutInEachExact(L, r, wanted, h);
    ApplyKeepsValid(L, r, SetContactGroups(h, names));
    forall n | n in wanted
      ensures Resolve(L, r'.groups, n) in wanted && Resolve(L, r'.groups, n) in r'.groups
    {
      if n in r.groups {
        ResolveStored(L, r', n, n);
      }
    }
    forall n | n in wanted && n in r'.groups
      ensures n == Resolve(L, r'.groups, n)
    {
      ResolveStored(L, r', n, n);
    }
    assert wanted[0] in wanted;
    assert Resolve(L, r'.groups, wanted[0]) in GroupsOf(r', h);
  }

  /** The contact stays on the roster if and only if at least one of the names is spelled as stored. */
  lemma RegroupKeepsContact(L: Locale, r: Roster, h: Contact, names: seq<string>)
    requires L.Lawful() && Valid(L, r) && NamesPrintable(L, SetContactGroups(h, names))
    ensures h in Contacts(Apply(L, r, SetContactGroups(h, names))) <==>
            exists n :: n in WantedNames(L, names) && Spelled(L, r, n)
  {
    var wanted := WantedNames(L, names);
    var r' := Apply(L, r, SetContactGroups(h, names));
    RegroupExact(L, r, h, names);
    PutInEachExact(L, r, wanted, h);
    ApplyKeepsValid(L, r, SetContactGroups(h, names));
    InSomeGroup(L, r', h);
    if h in Contacts(r') {
      var n :| n in GroupsOf(r', h);
      if n !in r.groups {
        forall k | k in r.groups
          ensures !L.Collate(k, n)
        {
          assert k in r'.groups;
        }
      }
      assert n in wanted && Spelled(L, r, n);
    }
    forall n | n in wanted && Spelled(L, r, n)
      ensures h in Contacts(r')
    {
      var g := Resolve(L, r'.groups, n);
      if n in r.groups {
        assert n in GroupsOf(r', h);
      } else {
        assert g in r'.groups && g !in r.groups;
        assert g in GroupsOf(r', h);
      }
    }
  }

  ghost predicate LosesContact(L: Locale, r: Roster, h: Contact, names: seq<string>) {
    h in Contacts(r) && h !in Contacts(Apply(L, r, SetContactGroups(h, names)))
  }

  /** A spelling that libpurple takes for the stored group but the code does not: the contact's only group is found by
      the name it is to be put in, and it is taken out of it as unwanted. */
  lemma OtherSpellingLosesContact(L: Locale, r: Roster, h: Contact, g: string, name: string)
    requires L.Lawful() && Valid(L, r) && L.Printable(name)
    requires GroupsOf(r, h) == {g} && L.Collate(g, name) && g != name
    ensures LosesContact(L, r, h, [name])
  {
    assert g in GroupsOf(r, h);
    InSomeGroup(L, r, h);
    RegroupKeepsContact(L, r, h, [name]);
    forall n | n in WantedNames(L, [name])
      ensures !Spelled(L, r, n)
    {
      ResolveStored(L, r, n, g);
    }
  }

  /** A locale in which "b" and "B" collate, and a roster whose one group is stored under one of the two names. */
  lemma TwoSpellings(fallback: string) returns (L: Locale, r: Roster)
    requires fallback != ""
    ensures L.Lawful() && L.fallback == fallback && Valid(L, r)
    ensures L.Collate("b", "B") && "b" != "B" && L.Printable("B")
    ensures r == Roster({"b"}, {(1, "b")}) && GroupsOf(r, 1) == {"b"}
  {
    L := Locale((s: string) => if s == "B" then "b" else s, (s: string) => s, fallback);
    r := Roster({"b"}, {(1, "b")});
    assert "b"[0] != "B"[0];
  }

  /** Such a roster exists. */
  lemma OtherSpellingExists() returns (L: Locale, r: Roster, name: string)
    ensures L.Lawful() && Valid(L, r) && L.Printable(name) && LosesContact(L, r, 1, [name])
  {
    L, r := TwoSpellings("a");
    name := "B";
    OtherSpellingLosesContact(L, r, 1, "b", name);
  }

  // ----- Normalising names -----

  /** normalize_group; None for a name with nothing printable in it. */
  ghost function NormalizeGroup(L: Locale, r: Roster, name: string): Option<string> {
    var stripped := L.strip(name);
    if stripped == "" then None else Some(Resolve(L, r.groups, stripped))
  }

  /** Normalising yields names that are spelled as stored and that normalising leaves alone. */
  lemma NormalizeIdempotent(L: Locale, r: Roster, name: string)
    requires L.Lawful() && Valid(L, r) && NormalizeGroup(L, r, name).Some?
    ensures var n := NormalizeGroup(L, r, name).value;
            L.Printable(n) && Spelled(L, r, n) && NormalizeGroup(L, r, n) == Some(n)
  {
    var n := NormalizeGroup(L, r, name).value;
    if n in r.groups {
      ResolveStored(L, r, n, n);
    }
  }

  /** All spellings that collate with a group are sent to its stored name. */
  lemma NormalizeFindsGroup(L: Locale, r: Roster, name: string, g: string)
    requires L.Lawful() && Valid(L, r) && g in r.groups && L.strip(name) != "" && L.Collate(g, L.strip(name))
    ensures NormalizeGroup(L, r, name) == Some(g)
  {
    ResolveStored(L, r, L.strip(name), g);
  }

  ghost predicate Normalized(L: Locale, r: Roster, names: seq<string>) {
    forall n | n in names :: NormalizeGroup(L, r, n) == Some(n)
  }

  /** With normalised names, a contact stays on the roster if and only if some name is given or the fallback group, if
      there is one, is stored under the fallback's own spelling: that name is not normalised. */
  lemma NormalizedKeepsContact(L: Locale, r: Roster, h: Contact, names: seq<string>)
    requires L.Lawful() && Valid(L, r) && Normalized(L, r, names)
    ensures NamesPrintable(L, SetContactGroups(h, names))
    ensures h in Contacts(Apply(L, r, SetContactGroups(h, names))) <==> names != [] || Spelled(L, r, L.fallback)
  {
    forall n | n in names
      ensures L.Printable(n) && Spelled(L, r, n)
    {
      NormalizeIdempotent(L, r, n);
    }
    RegroupKeepsContact(L, r, h, names);
    assert WantedNames(L, names)[0] in WantedNames(L, names);
  }

  /** A contact whose only group is the fallback under another spelling, given no groups, drops off. */
  lemma NoGroupsLosesContact(L: Locale, r: Roster, h: Contact, g: string)
    requires L.Lawful() && Valid(L, r)
    requires GroupsOf(r, h) == {g} && L.Collate(g, L.fallback) && g != L.fallback
    ensures LosesContact(L, r, h, [])
  {
    assert g in GroupsOf(r, h);
    InSomeGroup(L, r, h);
    ResolveStored(L, r, L.fallback, g);
    NormalizedKeepsContact(L, r, h, []);
  }

  /** Such a roster exists: the fallback is "B" and the contact's group is stored as "b". */
  lemma NoGroupsLosesContactExists() returns (L: Locale, r: Roster)
    ensures L.Lawful() && Valid(L, r) && LosesContact(L, r, 1, [])
  {
    L, r := TwoSpellings("B");
    NoGroupsLosesContact(L, r, 1, "b");
  }

  /** Normalised names never take a contact off the roster; without names, it takes the fallback's own spelling. */
  lemma NormalizedIsCareful(L: Locale, r: Roster, h: Contact, names: seq<string>)
    requires L.Lawful() && Valid(L, r) && Normalized(L, r, names)
    requires names != [] || Spelled(L, r, L.fallback)
    ensures NamesPrintable(L, SetContactGroups(h, names)) && Careful(L, r, SetContactGroups(h, names))
  {
    forall n | n in names
      ensures L.Printable(n) && Spelled(L, r, n)
    {
      NormalizeIdempotent(L, r, n);
    }
    assert WantedNames(L, names)[0] in WantedNames(L, names);
  }

  /** Each name normalised. */
  ghost function NormalizeEach(L: Locale, r: Roster, names: seq<string>): seq<string>
    requires forall n | n in names :: NormalizeGroup(L, r, n).Some?
  {
    seq(|names|, i requires 0 <= i < |names| => NormalizeGroup(L, r, names[i]).value)
  }

  lemma NormalizeEachIsNormalized(L: Locale, r: Roster, names: seq<string>)
    requires L.Lawful() && Valid(L, r) && forall n | n in names :: NormalizeGroup(L, r, n).Some?
    ensures Normalized(L, r, NormalizeEach(L, r, names))
    ensures forall n | n in NormalizeEach(L, r, names) :: Spelled(L, r, n) && L.Printable(n)
  {
    forall i | 0 <= i < |names|
      ensures var n := NormalizeEach(L, r, names)[i];
              NormalizeGroup(L, r, n) == Some(n) && Spelled(L, r, n) && L.Printable(n)
    {
      assert names[i] in names;
      NormalizeIdempotent(L, r, names[i]);
    }
  }

  /** Normalising sends a name to the group that its printable part finds, before the regrouping and after it. */
  lemma NormalizedFinds(L: Locale, r: Roster, name: string, r': Roster, g: string)
    requires L.Lawful() && Valid(L, r) && Valid(L, r') && L.strip(name) != "" && g in r'.groups
    ensures L.Collate(g, L.strip(name)) <==> g == Resolve(L, r'.groups, NormalizeGroup(L, r, name).value)
  {
    var n := NormalizeGroup(L, r, name).value;
    assert L.Collate(n, L.strip(name));
    if L.Collate(g, n) {
      ResolveStored(L, r', n, g);
    }
  }

  /** However the names are spelled, once they are normalised the contact ends in just the groups that they find. */
  lemma AnySpellingRegroups(L: Locale, r: Roster, h: Contact, names: seq<string>)
    requires L.Lawful() && Valid(L, r) && names != [] && forall n | n in names :: L.strip(n) != ""
    ensures var r' := Apply(L, r, SetContactGroups(h, NormalizeEach(L, r, names)));
            && GroupsOf(r', h) != {}
            && (forall g :: g in GroupsOf(r', h) <==>
                            g in r'.groups && exists n | n in names :: L.Collate(g, L.strip(n)))
  {
    var given := NormalizeEach(L, r, names);
    var r' := Apply(L, r, SetContactGroups(h, given));
    NormalizeEachIsNormalized(L, r, names);
    RegroupSpelled(L, r, h, given);
    ApplyKeepsValid(L, r, SetContactGroups(h, given));
    forall g | g in r'.groups
      ensures g in GroupsOf(r', h) <==> exists n | n in names :: L.Collate(g, L.strip(n))
    {
      NamesFindGroup(L, r, names, r', g);
    }
  }

  lemma NamesFindGroup(L: Locale, r: Roster, names: seq<string>, r': Roster, g: string)
    requires L.Lawful() && Valid(L, r) && Valid(L, r') && g in r'.groups
    requires forall n | n in names :: L.strip(n) != ""
    ensures g in (set n | n in NormalizeEach(L, r, names) :: Resolve(L, r'.groups, n)) <==>
            exists n | n in names :: L.Collate(g, L.strip(n))
  {
    var given := NormalizeEach(L, r, names);
    if n :| n in names && L.Collate(g, L.strip(n)) {
      var i :| 0 <= i < |names| && names[i] == n;
      NormalizedFinds(L, r, n, r', g);
      assert given[i] in given;
    }
    if m :| m in given && g == Resolve(L, r'.groups, m) {
      var i :| 0 <= i < |given| && given[i] == m;
      NormalizedFinds(L, r, names[i], r', g);
      assert names[i] in names;
    }
  }

  // ----- Renaming -----

  /** How a rename ends: there is no group to rename, there is one already under the new name, or it succeeds. */
  lemma RenameEnds(L: Locale, r: Roster, oldName: string, newName: string)
    ensures var outcome := OutcomeOf(L, r, RenameGroup(oldName, newName));
            var found := exists g :: g in r.groups && L.Collate(g, oldName);
            var taken := exists g :: g in r.groups && L.Collate(g, newName);
            && (outcome == DoesNotExist <==> !found)
            && (outcome == NotAvailable <==> found && taken)
            && (outcome == Success <==> found && !taken)
  {
  }

  /** A rename moves the group's members as they are and touches no other group. */
  lemma RenameExact(L: Locale, r: Roster, oldName: string, newName: string)
    requires L.Lawful() && Valid(L, r) && L.Printable(newName)
    ensures var op := RenameGroup(oldName, newName);
            var r' := Apply(L, r, op);
            && (OutcomeOf(L, r, op) == Success ==>
                  && MembersOf(L, r', newName) == MembersOf(L, r, oldName)
                  && (forall g | g in r.groups && !L.Collate(g, oldName) ::
                        g in r'.groups && forall h :: (h, g) in r'.members <==> (h, g) in r.members))
            && (OutcomeOf(L, r, op) != Success ==> r' == r)
            && Contacts(r') == Contacts(r)
  {
    var op := RenameGroup(oldName, newName);
    var r' := Apply(L, r, op);
    if OutcomeOf(L, r, op) == Success {
      var from := Find(L, r.groups, oldName).value;
      assert newName !in r.groups;
      assert newName in r'.groups by {
        assert Renamed(from, newName, from) == newName;
      }
      ApplyKeepsValid(L, r, op);
      ResolveStored(L, r', newName, newName);
      RenameMembers(L, r, from, newName);
      forall g | g in r.groups && !L.Collate(g, oldName)
        ensures g in r'.groups && forall h :: (h, g) in r'.members <==> (h, g) in r.members
      {
        assert Renamed(from, newName, g) == g;
      }
      forall h
        ensures h in MembersOf(L, r', newName) <==> h in MembersOf(L, r, oldName)
      {
        MembersExact(L, r', newName, h);
        MembersExact(L, r, oldName, h);
      }
    }
  }

  lemma RenameMembers(L: Locale, r: Roster, from: string, to: string)
    requires Valid(L, r) && from in r.groups && to !in r.groups
    ensures var r' := Rename(r, from, to);
            && (forall h :: (h, to) in r'.members <==> (h, from) in r.members)
            && (forall h, g | g != from && g != to :: (h, g) in r'.members <==> (h, g) in r.members)
            && (forall h :: (h, from) !in r'.members)
            && Contacts(r') == Contacts(r)
  {
    var r' := Rename(r, from, to);
    forall h, g
      ensures (h, g) in r.members ==> (h, Renamed(from, to, g)) in r'.members
    {
      assert (h, g) in r.members ==> ((h, g).0, Renamed(from, to, (h, g).1)) in r'.members;
    }
    forall h | h in Contacts(r)
      ensures h in Contacts(r')
    {
      var m :| m in r.members && m.0 == h;
      assert (m.0, Renamed(from, to, m.1)) in r'.members;
    }
  }

  // ----- Which groups there are -----

  /** Removing contacts, when it is not refused, would leave some of them in no group. */
  ghost predicate Orphaning(L: Locale, r: Roster, name: string, hs: set<Contact>) {
    exists h, g :: h in hs && GroupsOf(r, h) == {g} && L.Collate(g, name)
  }

  lemma OrphaningMeans(L: Locale, r: Roster, name: string, hs: set<Contact>)
    requires Valid(L, r)
    ensures Orphaning(L, r, name, hs) <==>
            Find(L, r.groups, name).Some? && Orphans(r, Find(L, r.groups, name).value, hs) != {}
  {
    if h, k :| h in hs && GroupsOf(r, h) == {k} && L.Collate(k, name) {
      assert k in GroupsOf(r, h);
      ResolveStored(L, r, name, k);
      assert h in Orphans(r, k, hs);
    }
    if Find(L, r.groups, name).Some? {
      var g := Find(L, r.groups, name).value;
      forall h | h in Orphans(r, g, hs)
        ensures GroupsOf(r, h) == {g}
      {
        assert g in GroupsOf(r, h);
      }
    }
  }

  /** A removal makes at most the fallback group, and only to put orphans there; no group goes. */
  lemma RemoveGroups(L: Locale, r: Roster, name: string, hs: set<Contact>)
    requires L.Lawful() && Valid(L, r)
    ensures Apply(L, r, RemoveFromGroup(name, hs)).groups ==
            r.groups + if Orphaning(L, r, name, hs) then {Resolve(L, r.groups, L.fallback)} else {}
  {
    OrphaningMeans(L, r, name, hs);
  }

  /** Setting the members makes the group, even for no members, and the fallback group if there are orphans. */
  lemma ReplaceGroups(L: Locale, r: Roster, name: string, hs: set<Contact>)
    requires L.Lawful() && Valid(L, r) && L.Printable(name)
    ensures var outcasts := set h | h in Contacts(r) && h !in hs;
            Apply(L, r, SetGroupMembers(name, hs)).groups ==
            r.groups + {Resolve(L, r.groups, name)}
            + if Orphaning(L, r, name, outcasts) then {Resolve(L, r.groups, L.fallback)} else {}
  {
    var g := Resolve(L, r.groups, name);
    var created, outcasts := Put(L, r, name, {}), MembersOf(L, r, name) - hs;
    var prepared := Prepare(L, created, name, outcasts);
    PutKeepsValid(L, r, name, {});
    PrepareKeepsValid(L, created, name, outcasts);
    ResolveStored(L, created, name, g);
    ResolveStored(L, prepared, name, g);
    OutcastOrphans(L, r, name, hs);
    OrphaningMeans(L, created, name, outcasts);
    if Orphaning(L, created, name, outcasts) {
      assert created == r;
    }
  }

  /** Making the group first leaves no more orphans: a contact in just one group was in it before. */
  lemma OutcastOrphans(L: Locale, r: Roster, name: string, hs: set<Contact>)
    requires Valid(L, r)
    ensures var outcasts := set h | h in Contacts(r) && h !in hs;
            var created := Put(L, r, name, {});
            Orphaning(L, created, name, MembersOf(L, r, name) - hs) <==> Orphaning(L, r, name, outcasts)
    ensures Orphaning(L, Put(L, r, name, {}), name, MembersOf(L, r, name) - hs) ==> Put(L, r, name, {}) == r
  {
    var outcasts := set h | h in Contacts(r) && h !in hs;
    var created := Put(L, r, name, {});
    forall h, g | GroupsOf(r, h) == {g} && L.Collate(g, name)
      ensures h in MembersOf(L, r, name) && GroupsOf(created, h) == {g} && created == r
    {
      assert g in GroupsOf(r, h);
      ResolveStored(L, r, name, g);
      MembersExact(L, r, name, h);
    }
    forall h
      ensures GroupsOf(created, h) == GroupsOf(r, h)
    {
      PutExact(L, r, name, {}, h);
    }
  }

  /** Setting a contact's groups makes those of them that there are not, the fallback group if it is to have none; no
      group goes. */
  lemma RegroupGroups(L: Locale, r: Roster, h: Contact, names: seq<string>)
    requires L.Lawful() && Valid(L, r) && NamesPrintable(L, SetContactGroups(h, names))
    ensures var groups := Apply(L, r, SetContactGroups(h, names)).groups;
            && r.groups <= groups
            && (forall g | g in groups - r.groups :: if names == [] then g == L.fallback else g in names)
            && (names == [] ==> exists g :: g in groups && L.Collate(g, L.fallback))
            && (forall n | n in names :: exists g :: g in groups && L.Collate(g, n))
  {
    var wanted := WantedNames(L, names);
    PutInEachExact(L, r, wanted, h);
    assert wanted[0] in wanted;
  }

  /** A contact that is given no groups ends in the fallback group alone, or in none if that is stored under another
      spelling. */
  lemma NoGroupsMeansFallback(L: Locale, r: Roster, h: Contact)
    requires L.Lawful() && Valid(L, r)
    ensures var groups := GroupsOf(Apply(L, r, SetContactGroups(h, [])), h);
            if exists g :: g in r.groups && L.Collate(g, L.fallback) && g != L.fallback then groups == {}
            else groups == {L.fallback}
  {
    var r' := Apply(L, r, SetContactGroups(h, []));
    RegroupExact(L, r, h, []);
    RegroupGroups(L, r, h, []);
    ApplyKeepsValid(L, r, SetContactGroups(h, []));
    var g :| g in r'.groups && L.Collate(g, L.fallback);
    if g != L.fallback {
      assert g !in r'.groups - r.groups;
    }
  }

  // ----- Nobody drops off the roster -----

  /** Only setting a contact's own groups can take it off the roster, and only by names none of which is spelled as
      stored. */
  ghost predicate Careful(L: Locale, r: Roster, op: Op) {
    op.SetContactGroups? && op.contact in Contacts(r) ==>
      exists n :: n in WantedNames(L, op.names) && Spelled(L, r, n)
  }

  lemma NobodyDropsOff(L: Locale, r: Roster, op: Op)
    requires L.Lawful() && Valid(L, r) && NamesPrintable(L, op)
    ensures Contacts(r) <= Contacts(Apply(L, r, op)) <==> Careful(L, r, op)
  {
    var r' := Apply(L, r, op);
    ApplyKeepsValid(L, r, op);
    match op {
      case AddToGroup(_, _) =>
        assert r.members <= r'.members;
      case RenameGroup(oldName, newName) =>
        RenameExact(L, r, oldName, newName);
      case SetContactGroups(h, names) =>
        RegroupKeepsContact(L, r, h, names);
        RegroupExact(L, r, h, names);
        forall k | k != h
          ensures k in Contacts(r') <==> k in Contacts(r)
        {
          InSomeGroup(L, r, k);
          InSomeGroup(L, r', k);
        }
      case RemoveFromGroup(name, hs) =>
        forall h | h in Contacts(r)
          ensures h in Contacts(r')
        {
          InSomeGroup(L, r, h);
          InSomeGroup(L, r', h);
          if Find(L, r.groups, name).Some? && !Blocked(L, r, name, hs) {
            RemoveExact(L, r, name, hs, h);
          }
        }
      case SetGroupMembers(name, hs) =>
        forall h | h in Contacts(r)
          ensures h in Contacts(r')
        {
          InSomeGroup(L, r, h);
          InSomeGroup(L, r', h);
          ReplaceFails(L, r, name, hs);
          if OutcomeOf(L, r, op) == Success {
            ReplaceExact(L, r, name, hs, h);
          }
        }
    }
  }

  /** Before a whole group is removed its members are prepared in the same way; whichever of the group's buddies
      libpurple then deletes, nobody drops off. */
  lemma RemoveGroupKeepsContacts(L: Locale, r: Roster, name: string, deleted: set<Contact>)
    requires L.Lawful() && Valid(L, r)
    requires !Blocked(L, r, name, MembersOf(L, r, name))
    ensures Contacts(RemoveMany(L, Prepare(L, r, name, MembersOf(L, r, name)), name, deleted)) == Contacts(r)
  {
    var members := MembersOf(L, r, name);
    var prepared := Prepare(L, r, name, members);
    var r' := RemoveMany(L, prepared, name, deleted);
    PrepareKeepsValid(L, r, name, members);
    if Find(L, r.groups, name).Some? {
      var g := Find(L, r.groups, name).value;
      var orphans := Orphans(r, g, members);
      ResolveStored(L, prepared, name, g);
      forall h
        ensures h in Contacts(r') <==> h in Contacts(r)
      {
        MembersExact(L, r, name, h);
        InSomeGroup(L, r, h);
        InSomeGroup(L, r', h);
        if orphans != {} {
          PutExact(L, r, L.fallback, orphans, h);
        }
        DropExact(prepared, g, deleted, h);
        assert h in orphans <==> GroupsOf(r, h) == {g};
      }
    }
  }

  ghost function Run(L: Locale, r: Roster, ops: seq<Op>): Roster
    decreases |ops|
  {
    if ops == [] then r else Run(L, Apply(L, r, ops[0]), ops[1..])
  }

  ghost predicate CarefulRun(L: Locale, r: Roster, ops: seq<Op>)
    decreases |ops|
  {
    ops != [] ==> NamesPrintable(L, ops[0]) && Careful(L, r, ops[0]) && CarefulRun(L, Apply(L, r, ops[0]), ops[1..])
  }

  /** No sequence of group operations takes a contact off the roster. */
  lemma {:induction false} NobodyDropsOffInARun(L: Locale, r: Roster, ops: seq<Op>)
    requires L.Lawful() && Valid(L, r) && CarefulRun(L, r, ops)
    ensures Valid(L, Run(L, r, ops)) && Contacts(r) <= Contacts(Run(L, r, ops))
    decreases |ops|
  {
    if ops != [] {
      ApplyKeepsValid(L, r, ops[0]);
      NobodyDropsOff(L, r, ops[0]);
      NobodyDropsOffInARun(L, Apply(L, r, ops[0]), ops[1..]);
    }
  }

  // ----- Names as telepathy-glib passes them on -----

  ghost predicate NamesNormalized(L: Locale, r: Roster, op: Op) {
    match op
    case AddToGroup(name, _) => Normalized(L, r, [name])
    case RemoveFromGroup(name, _) => Normalized(L, r, [name])
    case SetGroupMembers(name, _) => Normalized(L, r, [name])
    case SetContactGroups(_, names) => Normalized(L, r, names)
    case RenameGroup(oldName, newName) => Normalized(L, r, [oldName, newName])
  }

  /** The one operation with normalised names that takes somebody off the roster. */
  ghost predicate LosesByFallback(L: Locale, r: Roster, op: Op) {
    op.SetContactGroups? && op.names == [] && op.contact in Contacts(r) && !Spelled(L, r, L.fallback)
  }

  lemma NormalizedNamesArePrintable(L: Locale, r: Roster, op: Op)
    requires L.Lawful() && Valid(L, r) && NamesNormalized(L, r, op)
    ensures NamesPrintable(L, op)
  {
    match op {
      case AddToGroup(name, _) =>
        assert name in [name];
        NormalizeIdempotent(L, r, name);
      case RemoveFromGroup(_, _) =>
      case SetGroupMembers(name, _) =>
        assert name in [name];
        NormalizeIdempotent(L, r, name);
      case SetContactGroups(h, names) =>
        NormalizedKeepsContact(L, r, h, names);
      case RenameGroup(oldName, newName) =>
        assert newName in [oldName, newName];
        NormalizeIdempotent(L, r, newName);
    }
  }

  /** With normalised names an operation keeps everybody on the roster unless it gives a contact no groups while the
      fallback group is stored under another spelling. */
  lemma NormalizedNobodyDropsOff(L: Locale, r: Roster, op: Op)
    requires L.Lawful() && Valid(L, r) && NamesNormalized(L, r, op)
    ensures Contacts(r) <= Contacts(Apply(L, r, op)) <==> !LosesByFallback(L, r, op)
  {
    NormalizedNamesArePrintable(L, r, op);
    NobodyDropsOff(L, r, op);
    if op.SetContactGroups? {
      NormalizedKeepsContact(L, r, op.contact, op.names);
      RegroupKeepsContact(L, r, op.contact, op.names);
    }
  }

  ghost predicate NormalizedRun(L: Locale, r: Roster, ops: seq<Op>)
    decreases |ops|
  {
    ops != [] ==>
      && NamesNormalized(L, r, ops[0]) && !LosesByFallback(L, r, ops[0])
      && NormalizedRun(L, Apply(L, r, ops[0]), ops[1..])
  }

  /** So it is over every sequence of operations with normalised names. */
  lemma {:induction false} NobodyDropsOffInANormalizedRun(L: Locale, r: Roster, ops: seq<Op>)
    requires L.Lawful() && Valid(L, r) && NormalizedRun(L, r, ops)
    ensures CarefulRun(L, r, ops) && Contacts(r) <= Contacts(Run(L, r, ops))
    decreases |ops|
  {
    if ops != [] {
      NormalizedNamesArePrintable(L, r, ops[0]);
      NormalizedNobodyDropsOff(L, r, ops[0]);
      NobodyDropsOff(L, r, ops[0]);
      ApplyKeepsValid(L, r, ops[0]);
      NobodyDropsOffInANormalizedRun(L, Apply(L, r, ops[0]), ops[1..]);
    }
  }
}
