/**
 * The group operations of src/contact-list.c as they are carried out on libpurple's buddy list, and the signals
 * that keep clients informed.
 *
 * The buddy list is a heap of group objects and a heap of buddy objects that point to their group;
 * a contact can have several buddies. Each operation is proved to do to the relation of module Roster what Roster.Apply
 * says, and to emit signals from which a client can rebuild that relation.
 */
module ContactList {
  import opened Wrappers
  import opened Roster
  import PublishRequests

  // ----- libpurple's buddy list -----

  /** Groups and buddies are known by their addresses. */
  type Address = nat

  datatype Buddy = Buddy(contact: Contact, group: Address)

  type Groups = map<Address, string>
  type Buddies = map<Address, Buddy>

  ghost predicate WellFormed(L: Locale, groups: Groups, buddies: Buddies) {
    && (forall i | i in groups :: L.Printable(groups[i]))
    && (forall i, j | i in groups && j in groups && L.Collate(groups[i], groups[j]) :: i == j)
    && (forall b | b in buddies :: buddies[b].group in groups)
  }

  ghost predicate Pointing(groups: Groups, buddies: Buddies) {
    forall b | b in buddies :: buddies[b].group in groups
  }

  /** The relation that the two heaps stand for. */
  ghost function Relation(groups: Groups, buddies: Buddies): Roster
    requires Pointing(groups, buddies)
  {
    Roster(set i | i in groups :: groups[i],
           set b | b in buddies :: (buddies[b].contact, groups[buddies[b].group]))
  }

  /** No contact has two buddies in one group. */
  ghost predicate Distinct(buddies: Buddies) {
    forall a, b | a in buddies && b in buddies && buddies[a] == buddies[b] :: a == b
  }

  lemma RelationIsValid(L: Locale, groups: Groups, buddies: Buddies)
    requires WellFormed(L, groups, buddies)
    ensures Valid(L, Relation(groups, buddies))
  {
  }

  lemma RelationHas(groups: Groups, buddies: Buddies, h: Contact, i: Address)
    requires Pointing(groups, buddies) && i in groups
    requires forall i, j | i in groups && j in groups && groups[i] == groups[j] :: i == j
    ensures (h, groups[i]) in Relation(groups, buddies).members <==>
            exists b :: b in buddies && buddies[b] == Buddy(h, i)
  {
    if b :| b in buddies && buddies[b] == Buddy(h, i) {
      assert (buddies[b].contact, groups[buddies[b].group]) in Relation(groups, buddies).members;
    }
  }

  lemma RelationAddBuddy(groups: Groups, buddies: Buddies, b: Address, h: Contact, i: Address)
    requires Pointing(groups, buddies) && i in groups && b !in buddies
    ensures var r := Relation(groups, buddies);
            Relation(groups, buddies[b := Buddy(h, i)]) == r.(members := r.members + {(h, groups[i])})
  {
    var r, r' := Relation(groups, buddies), Relation(groups, buddies[b := Buddy(h, i)]);
    forall m | m in r.members + {(h, groups[i])}
      ensures m in r'.members
    {
      if m in r.members {
        var a :| a in buddies && m == (buddies[a].contact, groups[buddies[a].group]);
        assert a in buddies[b := Buddy(h, i)];
      } else {
        assert b in buddies[b := Buddy(h, i)];
      }
    }
  }

  lemma RelationAddGroup(groups: Groups, buddies: Buddies, i: Address, name: string)
    requires Pointing(groups, buddies) && i !in groups
    ensures Pointing(groups[i := name], buddies)
    ensures var r := Relation(groups, buddies);
            Relation(groups[i := name], buddies) == r.(groups := r.groups + {name})
  {
    var groups' := groups[i := name];
    var r, r' := Relation(groups, buddies), Relation(groups', buddies);
    forall g | g in r.groups + {name}
      ensures g in r'.groups
    {
      if g in r.groups {
        var j :| j in groups && groups[j] == g;
        assert j in groups' && groups'[j] == g;
      } else {
        assert i in groups' && groups'[i] == g;
      }
    }
    assert forall b | b in buddies :: groups'[buddies[b].group] == groups[buddies[b].group];
    assert r'.members == r.members;
  }

  /** Deleting exactly the buddies that stand for pairs not to be kept. */
  lemma RelationFilter(groups: Groups, buddies: Buddies, gone: set<Address>, keep: ((Contact, string)) -> bool)
    requires Pointing(groups, buddies)
    requires forall b | b in buddies :: b in gone <==> !keep((buddies[b].contact, groups[buddies[b].group]))
    ensures Pointing(groups, buddies - gone)
    ensures var r := Relation(groups, buddies);
            Relation(groups, buddies - gone) == r.(members := set m | m in r.members && keep(m))
  {
    var r, r' := Relation(groups, buddies), Relation(groups, buddies - gone);
    forall m | m in r.members && keep(m)
      ensures m in r'.members
    {
      var b :| b in buddies && m == (buddies[b].contact, groups[buddies[b].group]);
      assert b in buddies - gone;
    }
  }

  lemma RelationWithout(groups: Groups, buddies: Buddies, h: Contact)
    requires Pointing(groups, buddies)
    ensures Pointing(groups, buddies - BuddiesOf(buddies, h))
    ensures var r := Relation(groups, buddies);
            Relation(groups, buddies - BuddiesOf(buddies, h)) == r.(members := set m | m in r.members && m.0 != h)
  {
    var keep := (m: (Contact, string)) => m.0 != h;
    RelationFilter(groups, buddies, BuddiesOf(buddies, h), keep);
  }

  lemma RelationDrop(L: Locale, groups: Groups, buddies: Buddies, gone: set<Address>, i: Address, hs: set<Contact>)
    requires WellFormed(L, groups, buddies) && i in groups
    requires forall b | b in buddies :: b in gone <==> buddies[b].contact in hs && buddies[b].group == i
    ensures Relation(groups, buddies - gone) == Drop(Relation(groups, buddies), groups[i], hs)
  {
    var g := groups[i];
    var keep := (m: (Contact, string)) => !(m.0 in hs && m.1 == g);
    RelationFilter(groups, buddies, gone, keep);
    var r := Relation(groups, buddies);
    assert (set m | m in r.members && keep(m)) == Drop(r, g, hs).members;
  }

  lemma RelationRename(L: Locale, groups: Groups, buddies: Buddies, i: Address, name: string)
    requires WellFormed(L, groups, buddies) && i in groups
    ensures Relation(groups[i := name], buddies) == Rename(Relation(groups, buddies), groups[i], name)
  {
    assert forall j | j in groups :: groups[i := name][j] == Renamed(groups[i], name, groups[j]);
    RenameGroups(groups, groups[i := name], groups[i], name);
    RenameMemberships(groups, groups[i := name], buddies, groups[i], name);
  }

  lemma RenameKeepsWellFormed(L: Locale, groups: Groups, buddies: Buddies, i: Address, name: string)
    requires WellFormed(L, groups, buddies) && i in groups
    requires L.Printable(name) && Find(L, Relation(groups, buddies).groups, name).None?
    ensures WellFormed(L, groups[i := name], buddies)
  {
    forall j | j in groups
      ensures !L.Collate(groups[j], name)
    {
      assert groups[j] in Relation(groups, buddies).groups;
    }
  }

  lemma RenameGroups(groups: Groups, groups': Groups, from: string, to: string)
    requires groups'.Keys == groups.Keys && forall j | j in groups :: groups'[j] == Renamed(from, to, groups[j])
    ensures (set i | i in groups' :: groups'[i]) ==
            (set g | g in (set i | i in groups :: groups[i]) :: Renamed(from, to, g))
  {
    var before, after := set i | i in groups :: groups[i], set i | i in groups' :: groups'[i];
    forall g | g in before
      ensures Renamed(from, to, g) in after
    {
      var i :| i in groups && groups[i] == g;
      assert i in groups';
    }
    forall g | g in after
      ensures exists k :: k in before && g == Renamed(from, to, k)
    {
      var i :| i in groups' && groups'[i] == g;
      assert groups[i] in before;
    }
  }

  lemma RenameMemberships(groups: Groups, groups': Groups, buddies: Buddies, from: string, to: string)
    requires Pointing(groups, buddies) && Pointing(groups', buddies)
    requires forall j | j in groups :: j in groups' && groups'[j] == Renamed(from, to, groups[j])
    ensures (set b | b in buddies :: (buddies[b].contact, groups'[buddies[b].group])) ==
            (set m | m in Relation(groups, buddies).members :: (m.0, Renamed(from, to, m.1)))
  {
    var before := Relation(groups, buddies).members;
    var after := set b | b in buddies :: (buddies[b].contact, groups'[buddies[b].group]);
    forall m | m in before
      ensures (m.0, Renamed(from, to, m.1)) in after
    {
      var b :| b in buddies && m == (buddies[b].contact, groups[buddies[b].group]);
      assert b in buddies && (m.0, Renamed(from, to, m.1)) == (buddies[b].contact, groups'[buddies[b].group]);
    }
    forall m | m in after
      ensures exists n :: n in before && m == (n.0, Renamed(from, to, n.1))
    {
      var b :| b in buddies && m == (buddies[b].contact, groups'[buddies[b].group]);
      assert (buddies[b].contact, groups[buddies[b].group]) in before;
    }
  }

  // ----- Signals -----

  datatype Signal =
    | ContactChanged(h: Contact)
    | GroupsChanged(h: Contact, added: seq<string>, removed: seq<string>)
    | ContactRemoved(h: Contact)
    | GroupsCreated(name: string)
    | GroupRenamed(from: string, to: string)

  /** What a client knows: which groups there are, the memberships, and who is on the roster. */
  datatype View = View(groups: set<string>, members: set<(Contact, string)>, contacts: set<Contact>)

  ghost function ViewOf(r: Roster): View {
    View(r.groups, r.members, Contacts(r))
  }

  /** The client has the memberships and the contacts right and knows of every group. It may know other names besides:
      a group is announced under the name asked for, which need not be the one that it is stored under. */
  ghost predicate Follows(v: View, r: Roster) {
    v.members == r.members && v.contacts == Contacts(r) && r.groups <= v.groups
  }

  ghost function React(v: View, s: Signal): View {
    match s
    case ContactChanged(h) => v.(contacts := v.contacts + {h})
    case GroupsChanged(h, added, removed) =>
      v.(members := (set m | m in v.members && !(m.0 == h && m.1 in removed)) + (set g | g in added :: (h, g)))
    case ContactRemoved(h) => v.(contacts := v.contacts - {h})
    case GroupsCreated(name) => v.(groups := v.groups + {name})
    case GroupRenamed(from, to) =>
      v.(groups := v.groups - {from} + {to}, members := set m | m in v.members :: (m.0, Renamed(from, to, m.1)))
  }

  /** What a client that starts from a snapshot and follows the signals knows. */
  ghost function Replay(v: View, signals: seq<Signal>): View {
    if signals == [] then v else React(Replay(v, signals[..|signals| - 1]), signals[|signals| - 1])
  }

  lemma ReplayOne(v: View, signals: seq<Signal>, s: Signal)
    ensures Replay(v, signals + [s]) == React(Replay(v, signals), s)
  {
    assert (signals + [s])[..|signals|] == signals;
  }

  lemma AddedContacts(r: Roster, h: Contact, g: string)
    ensures Contacts(r.(members := r.members + {(h, g)})) == Contacts(r) + {h}
  {
    var r' := r.(members := r.members + {(h, g)});
    forall k | k in Contacts(r) + {h}
      ensures k in Contacts(r')
    {
      if k in Contacts(r) {
        var m :| m in r.members && m.0 == k;
        assert m in r'.members;
      } else {
        assert (h, g) in r'.members;
      }
    }
  }

  /** The signals that follow the deletion of a buddy: its group, and the contact if that was its last buddy. */
  ghost function RemovalSignals(h: Contact, g: string, last: bool): seq<Signal> {
    [GroupsChanged(h, [], [g])] + if last then [ContactRemoved(h)] else []
  }

  /** Deleting a pair takes its contact off the roster if there was no other pair with it. */
  lemma RemovedContacts(r: Roster, h: Contact, g: string, last: bool)
    requires last <==> forall k | (h, k) in r.members :: k == g
    requires (h, g) in r.members
    ensures Contacts(r.(members := r.members - {(h, g)})) == Contacts(r) - if last then {h} else {}
  {
    var r' := r.(members := r.members - {(h, g)});
    forall k | k in Contacts(r) && k != h
      ensures k in Contacts(r')
    {
      var m :| m in r.members && m.0 == k;
      assert m in r'.members;
    }
    if last {
      forall m | m in r'.members
        ensures m.0 != h
      {
        assert m == (m.0, m.1);
      }
    } else {
      var k :| (h, k) in r.members && k != g;
      assert (h, k) in r'.members && (h, k).0 == h;
    }
  }

  lemma ReplayRemoval(v: View, signals: seq<Signal>, r: Roster, h: Contact, g: string, last: bool)
    requires Follows(Replay(v, signals), r)
    requires last <==> forall k | (h, k) in r.members :: k == g
    requires (h, g) in r.members
    ensures Follows(Replay(v, signals + RemovalSignals(h, g, last)), r.(members := r.members - {(h, g)}))
  {
    var changed := GroupsChanged(h, [], [g]);
    RemovedContacts(r, h, g, last);
    ReplayOne(v, signals, changed);
    ReplayOne(v, signals + [changed], ContactRemoved(h));
    assert signals + RemovalSignals(h, g, last) ==
           if last then signals + [changed] + [ContactRemoved(h)] else signals + [changed];
  }

  /** The signals that follow the creation of a buddy. */
  ghost function AdditionSignals(h: Contact, g: string): seq<Signal> {
    [ContactChanged(h), GroupsChanged(h, [g], [])]
  }

  /** From the signals that follow the creation of a buddy a client learns of the contact and of the membership. */
  lemma ReplayAddition(v: View, signals: seq<Signal>, h: Contact, g: string)
    ensures var before := Replay(v, signals);
            Replay(v, signals + AdditionSignals(h, g)) ==
            before.(members := before.members + {(h, g)}, contacts := before.contacts + {h})
  {
    assert signals + AdditionSignals(h, g) == signals + [ContactChanged(h)] + [GroupsChanged(h, [g], [])];
    ReplayOne(v, signals, ContactChanged(h));
    ReplayOne(v, signals + [ContactChanged(h)], GroupsChanged(h, [g], []));
  }

  /** No repeated buddy, and following the signals has led clients to the present relation. */
  ghost predicate Synced(v: View, signals: seq<Signal>, groups: Groups, buddies: Buddies)
    requires Pointing(groups, buddies)
  {
    Distinct(buddies) && Follows(Replay(v, signals), Relation(groups, buddies))
  }

  /** Clients that are told of a new group, or of an old one once more, are in step with it. */
  lemma AnnouncementKeepsSynced(v: View, signals: seq<Signal>, groups: Groups, groups': Groups, buddies: Buddies,
                                name: string)
    requires Pointing(groups, buddies) && Pointing(groups', buddies)
    requires Relation(groups', buddies).members == Relation(groups, buddies).members
    requires Relation(groups', buddies).groups <= Relation(groups, buddies).groups + {name}
    ensures Synced(v, signals, groups, buddies) ==> Synced(v, signals + [GroupsCreated(name)], groups', buddies)
  {
    ReplayOne(v, signals, GroupsCreated(name));
  }

  lemma AdditionKeepsSynced(v: View, signals: seq<Signal>, groups: Groups, buddies: Buddies, b: Address, added: Buddy)
    requires Pointing(groups, buddies) && b !in buddies && added.group in groups
    ensures Synced(v, signals, groups, buddies) && Absent(buddies, added) ==>
              Synced(v, signals + AdditionSignals(added.contact, groups[added.group]), groups, buddies[b := added])
  {
    var h, g := added.contact, groups[added.group];
    ReplayAddition(v, signals, h, g);
    AddedContacts(Relation(groups, buddies), h, g);
    RelationAddBuddy(groups, buddies, b, h, added.group);
  }

  lemma RemovalKeepsSynced(L: Locale, v: View, signals: seq<Signal>, groups: Groups, buddies: Buddies, b: Address)
    requires WellFormed(L, groups, buddies) && b in buddies
    ensures var (h, g) := (buddies[b].contact, groups[buddies[b].group]);
            Synced(v, signals, groups, buddies) ==>
              Synced(v, signals + RemovalSignals(h, g, IsLast(buddies, b)), groups, buddies - {b})
  {
    if Synced(v, signals, groups, buddies) {
      var h, i := buddies[b].contact, buddies[b].group;
      var r := Relation(groups, buddies);
      RelationDrop(L, groups, buddies, {b}, i, {h});
      assert r.members - {(h, groups[i])} == Drop(r, groups[i], {h}).members;
      LastBuddy(L, groups, buddies, b);
      ReplayRemoval(v, signals, r, h, groups[i], IsLast(buddies, b));
    }
  }

  ghost predicate Absent(buddies: Buddies, buddy: Buddy) {
    forall b | b in buddies :: buddies[b] != buddy
  }

  /** The contact has no other buddy. */
  ghost predicate IsLast(buddies: Buddies, b: Address)
    requires b in buddies
  {
    forall a | a in buddies && buddies[a].contact == buddies[b].contact :: a == b
  }

  /** The contacts have buddies in the group only. */
  ghost predicate AllIn(buddies: Buddies, hs: set<Contact>, group: Address) {
    forall b | b in buddies && buddies[b].contact in hs :: buddies[b].group == group
  }

  lemma ElsewhereAbsent(buddies: Buddies, hs: set<Contact>, group: Address, other: Address)
    requires AllIn(buddies, hs, group) && other != group
    ensures AllAbsent(buddies, hs, other)
  {
  }

  /** None of the contacts has a buddy in the group. */
  ghost predicate AllAbsent(buddies: Buddies, hs: set<Contact>, group: Address) {
    forall h | h in hs :: Absent(buddies, Buddy(h, group))
  }

  lemma OneLessAbsent(buddies: Buddies, hs: set<Contact>, b: Address, h: Contact, group: Address)
    requires AllAbsent(buddies, hs, group) && h in hs && b !in buddies
    ensures Absent(buddies, Buddy(h, group)) && AllAbsent(buddies[b := Buddy(h, group)], hs - {h}, group)
  {
  }

  ghost function Pairs(hs: set<Contact>, g: string): set<(Contact, string)> {
    set h | h in hs :: (h, g)
  }

  lemma PairsOneMore(hs: set<Contact>, h: Contact, g: string)
    ensures Pairs(hs + {h}, g) == Pairs(hs, g) + {(h, g)}
  {
  }

  /** The buddies that some contacts have in a group. */
  ghost function BuddiesIn(buddies: Buddies, hs: set<Contact>, group: Address): set<Address> {
    set b | b in buddies && buddies[b].contact in hs && buddies[b].group == group
  }

  lemma BuddiesInOneMore(buddies: Buddies, hs: set<Contact>, h: Contact, group: Address)
    ensures var left := buddies - BuddiesIn(buddies, hs, group);
            left - BuddiesIn(left, {h}, group) == buddies - BuddiesIn(buddies, hs + {h}, group)
  {
  }

  ghost function BuddiesOf(buddies: Buddies, h: Contact): set<Address> {
    set b | b in buddies && buddies[b].contact == h
  }

  ghost function InGroup(buddies: Buddies, group: Address): set<Address> {
    set b | b in buddies && buddies[b].group == group
  }

  ghost function Unwanted(groups: Groups, buddies: Buddies, wanted: seq<string>): set<Address>
    requires Pointing(groups, buddies)
  {
    set b | b in buddies && groups[buddies[b].group] !in wanted
  }

  /** The buddies left when the doomed ones among those found have been deleted. */
  ghost function Left(buddies: Buddies, found: seq<Address>, doomed: set<Address>): Buddies {
    buddies - Chosen(found, doomed)
  }

  ghost function Chosen(found: seq<Address>, doomed: set<Address>): set<Address> {
    set b | b in found && b in doomed
  }

  lemma LeftNext(buddies: Buddies, found: seq<Address>, i: nat, doomed: set<Address>)
    requires i < |found| && found[i] in buddies
    requires forall j, k | 0 <= j < k < |found| :: found[j] != found[k]
    ensures var left := Left(buddies, found[..i], doomed);
            && found[i] in left && left[found[i]] == buddies[found[i]]
            && Left(buddies, found[..i + 1], doomed) == if found[i] in doomed then left - {found[i]} else left
  {
    assert found[..i + 1] == found[..i] + [found[i]];
    var one := if found[i] in doomed then {found[i]} else {};
    assert Chosen(found[..i + 1], doomed) == Chosen(found[..i], doomed) + one;
  }

  lemma NextUnwanted(groups: Groups, buddies: Buddies, found: seq<Address>, i: nat, wanted: seq<string>)
    requires Pointing(groups, buddies) && i < |found| && found[i] in buddies
    requires forall j, k | 0 <= j < k < |found| :: found[j] != found[k]
    ensures var doomed := Unwanted(groups, buddies, wanted);
            var left := Left(buddies, found[..i], doomed);
            && found[i] in left && left[found[i]] == buddies[found[i]]
            && Left(buddies, found[..i + 1], doomed) ==
               if groups[buddies[found[i]].group] in wanted then left else left - {found[i]}
  {
    LeftNext(buddies, found, i, Unwanted(groups, buddies, wanted));
  }

  // ----- The contact list -----

  class HazeContactList {
    const locale: Locale
    /** libpurple's heaps; addresses from nextAddress on are free. */
    var groups: Groups
    var buddies: Buddies
    var nextAddress: Address
    /** Whether the connection is disconnected, and the signals emitted. */
    var disconnected: bool
    var signals: seq<Signal>
    /** What clients knew before the first of the signals. */
    ghost var snapshot: View

    ghost predicate Valid()
      reads this`groups, this`buddies, this`nextAddress
    {
      && locale.Lawful()
      && WellFormed(locale, groups, buddies)
      && (forall i | i in groups :: i < nextAddress)
      && (forall b | b in buddies :: b < nextAddress)
    }

    ghost function Abs(): Roster
      requires Valid()
      reads this`groups, this`buddies, this`nextAddress
    {
      Relation(groups, buddies)
    }

    ghost predicate InSync()
      requires Valid()
      reads this
    {
      !disconnected && Synced(snapshot, signals, groups, buddies)
    }

    /** What clients that follow the signals know. */
    ghost function Known(): View
      reads this
    {
      Replay(snapshot, signals)
    }

    /** Clients will be in step once they are told of the group. */
    ghost predicate InSyncOnceTold(name: string)
      requires Valid()
      reads this
    {
      !disconnected && Synced(snapshot, signals + [GroupsCreated(name)], groups, buddies)
    }

    /** The buddy list as it is when the roster has been received. */
    constructor (locale: Locale, groups: Groups, buddies: Buddies, nextAddress: Address)
      requires locale.Lawful() && WellFormed(locale, groups, buddies)
      requires (forall i | i in groups :: i < nextAddress) && (forall b | b in buddies :: b < nextAddress)
      ensures Valid() && this.locale == locale && Abs() == Relation(groups, buddies)
      ensures InSync() <==> Distinct(buddies)
    {
      this.locale, this.groups, this.buddies, this.nextAddress := locale, groups, buddies, nextAddress;
      disconnected, signals := false, [];
      snapshot := ViewOf(Relation(groups, buddies));
    }

    // ----- libpurple -----

    /** purple_find_group */
    method FindGroup(name: string) returns (group: Option<Address>)
      requires Valid()
      ensures group.Some? ==> group.value in groups && Find(locale, Abs().groups, name) == Some(groups[group.value])
      ensures group.None? ==> Find(locale, Abs().groups, name) == None
    {
      RelationIsValid(locale, groups, buddies);
      var keys := groups.Keys;
      while keys != {}
        invariant keys <= groups.Keys
        invariant forall i | i in groups && i !in keys :: !locale.Collate(groups[i], name)
        decreases keys
      {
        var i :| i in keys;
        if locale.Collate(groups[i], name) {
          ResolveStored(locale, Abs(), name, groups[i]);
          return Some(i);
        }
        keys := keys - {i};
      }
      group := None;
    }

    /** purple_group_new: finds the group, or creates it. */
    method NewGroup(name: string) returns (group: Address)
      requires Valid() && locale.Printable(name)
      modifies this`groups, this`nextAddress
      ensures Valid() && group in groups && groups[group] == Resolve(locale, old(Abs()).groups, name)
      ensures Abs() == Put(locale, old(Abs()), name, {})
      ensures forall i | i in old(groups) :: i in groups && groups[i] == old(groups)[i]
      ensures group in old(groups) || Find(locale, old(Abs()).groups, name).Some? ==> groups == old(groups)
      ensures old(InSync()) ==> InSyncOnceTold(name)
    {
      var found := FindGroup(name);
      RelationIsValid(locale, groups, buddies);
      PutNobody(locale, Abs(), name);
      if found.Some? {
        group := found.value;
      } else {
        group := CreateGroup(name);
      }
      AnnouncementKeepsSynced(snapshot, signals, old(groups), groups, buddies, name);
    }

    method CreateGroup(name: string) returns (group: Address)
      requires Valid() && locale.Printable(name) && Find(locale, Abs().groups, name).None?
      modifies this`groups, this`nextAddress
      ensures Valid() && group !in old(groups) && groups == old(groups)[group := name]
      ensures Abs() == old(Abs()).(groups := old(Abs()).groups + {name})
    {
      assert forall i | i in groups :: groups[i] in Abs().groups;
      RelationAddGroup(groups, buddies, nextAddress, name);
      group := nextAddress;
      groups := groups[group := name];
      nextAddress := nextAddress + 1;
    }

    /** purple_find_buddies */
    method FindBuddies(h: Contact) returns (found: seq<Address>)
      ensures forall b :: b in found <==> b in buddies && buddies[b].contact == h
      ensures forall i, j | 0 <= i < j < |found| :: found[i] != found[j]
    {
      found := [];
      var keys := buddies.Keys;
      while keys != {}
        invariant keys <= buddies.Keys
        invariant forall b :: b in found <==> b in buddies && b !in keys && buddies[b].contact == h
        invariant forall i, j | 0 <= i < j < |found| :: found[i] != found[j]
        decreases keys
      {
        var b :| b in keys;
        if buddies[b].contact == h {
          found := found + [b];
        }
        keys := keys - {b};
      }
    }

    /** purple_blist_add_buddy, which calls buddy_added_cb. */
    method AddBuddy(h: Contact, group: Address)
      requires Valid() && group in groups
      modifies this`buddies, this`nextAddress, this`signals
      ensures Valid()
      ensures Abs() == old(Abs()).(members := old(Abs()).members + {(h, groups[group])})
      ensures buddies == old(buddies)[old(nextAddress) := Buddy(h, group)] && old(nextAddress) !in old(buddies)
      ensures signals == old(signals) + AdditionSignals(h, groups[group])
      ensures old(InSync()) && Absent(old(buddies), Buddy(h, group)) ==> InSync()
    {
      AdditionKeepsSynced(snapshot, signals, groups, buddies, nextAddress, Buddy(h, group));
      PlaceBuddy(h, group);
      BuddyAddedCb(h, groups[group]);
    }

    method PlaceBuddy(h: Contact, group: Address)
      requires Valid() && group in groups
      modifies this`buddies, this`nextAddress
      ensures Valid()
      ensures Abs() == old(Abs()).(members := old(Abs()).members + {(h, groups[group])})
      ensures buddies == old(buddies)[old(nextAddress) := Buddy(h, group)] && old(nextAddress) !in old(buddies)
    {
      RelationAddBuddy(groups, buddies, nextAddress, h, group);
      buddies := buddies[nextAddress := Buddy(h, group)];
      nextAddress := nextAddress + 1;
    }

    method BuddyAddedCb(h: Contact, group: string)
      modifies this`signals
      ensures signals == old(signals) + AdditionSignals(h, group)
    {
      signals := signals + [ContactChanged(h)];
      signals := signals + [GroupsChanged(h, [group], [])];
    }

    /** purple_blist_remove_buddy, which calls buddy_removed_cb. */
    method RemoveBuddy(b: Address)
      requires Valid() && b in buddies
      modifies this`buddies, this`signals
      ensures Valid() && buddies == old(buddies) - {b}
      ensures disconnected ==> signals == old(signals)
      ensures old(InSync()) ==> InSync()
    {
      RemovalKeepsSynced(locale, snapshot, signals, groups, buddies, b);
      BuddyRemovedCb(b);
      buddies := buddies - {b};
    }

    method BuddyRemovedCb(b: Address)
      requires Valid() && b in buddies
      modifies this`signals
      ensures disconnected ==> signals == old(signals)
      ensures !disconnected ==>
                signals == old(signals)
                         + RemovalSignals(buddies[b].contact, groups[buddies[b].group], IsLast(buddies, b))
    {
      if disconnected {
        return;
      }
      var h, g := buddies[b].contact, groups[buddies[b].group];
      signals := signals + [GroupsChanged(h, [], [g])];
      var found := FindBuddies(h);
      var lastInstance := true;
      var i := 0;
      while i < |found|
        invariant 0 <= i <= |found|
        invariant lastInstance && forall j | 0 <= j < i :: found[j] == b
        invariant signals == old(signals) + [GroupsChanged(h, [], [g])]
      {
        if found[i] != b {
          assert found[i] in found;
          lastInstance := false;
          break;
        }
        i := i + 1;
      }
      assert lastInstance ==> forall a | a in found :: a == b;
      if lastInstance {
        signals := signals + [ContactRemoved(h)];
      }
    }

    // ----- haze -----

    /** tp_base_contact_list_groups_created, for a group that is there now, whether or not it has just been made. */
    method AnnounceGroup(name: string)
      requires Valid() && Find(locale, Abs().groups, name).Some?
      modifies this`signals
      ensures signals == old(signals) + [GroupsCreated(name)]
      ensures InSync() <==> old(InSyncOnceTold(name))
    {
      signals := signals + [GroupsCreated(name)];
    }

    method AddToGroup(name: string, h: Contact)
      requires Valid() && locale.Printable(name)
      modifies this`groups, this`buddies, this`nextAddress, this`signals
      ensures Valid() && Abs() == Put(locale, old(Abs()), name, {h})
      ensures buddies == old(buddies) ||
              exists b: Address, i: Address :: b !in old(buddies) && buddies == old(buddies)[b := Buddy(h, i)]
      ensures old(InSync()) ==> InSync()
    {
      PutNobody(locale, Abs(), name);
      PutOne(locale, Abs(), name, h);
      var group := NewGroup(name);
      AnnounceGroup(name);
      RelationHas(groups, buddies, h, group);
      var present := HasBuddy(h, group);
      if !present {
        AddBuddy(h, group);
      }
    }

    /** Whether the contact has a buddy in the group. */
    method HasBuddy(h: Contact, group: Address) returns (present: bool)
      ensures present <==> !Absent(buddies, Buddy(h, group))
    {
      var found := FindBuddies(h);
      var i := 0;
      while i < |found|
        invariant 0 <= i <= |found|
        invariant forall j | 0 <= j < i :: buddies[found[j]].group != group
      {
        assert found[i] in found;
        if buddies[found[i]].group == group {
          return true;
        }
        i := i + 1;
      }
      assert forall b | b in found :: buddies[b].group != group;
      present := false;
    }

    method AddManyToGroup(name: string, contacts: set<Contact>)
      requires Valid() && locale.Printable(name)
      modifies this`groups, this`buddies, this`nextAddress, this`signals
      ensures Valid() && Abs() == Apply(locale, old(Abs()), Op.AddToGroup(name, contacts))
      ensures old(InSync()) ==> InSync()
    {
      ghost var r := Abs();
      RelationIsValid(locale, groups, buddies);
      var group := NewGroup(name);
      AnnounceGroup(name);
      var todo, done := contacts, {};
      while todo != {}
        invariant Valid() && done + todo == contacts
        invariant Abs() == Put(locale, r, name, done)
        invariant old(InSync()) ==> InSync()
        decreases todo
      {
        var h :| h in todo;
        PutMore(locale, r, name, done, {h});
        AddToGroup(name, h);
        todo, done := todo - {h}, done + {h};
      }
      assert done == contacts;
    }

    /** Whether all of the contact's buddies, of which there is one, are in the group. */
    method IsOrphan(h: Contact, group: Address) returns (orphan: bool)
      requires Valid() && group in groups
      ensures orphan <==> h in Orphans(Abs(), groups[group], {h})
    {
      var isIn, orphaned := false, true;
      var found := FindBuddies(h);
      var i := 0;
      while i < |found|
        invariant 0 <= i <= |found|
        invariant isIn <==> exists j :: 0 <= j < i && buddies[found[j]].group == group
        invariant orphaned <==> forall j | 0 <= j < i :: buddies[found[j]].group == group
      {
        if buddies[found[i]].group == group {
          isIn := true;
        } else {
          orphaned := false;
        }
        i := i + 1;
      }
      orphan := isIn && orphaned;
      OrphanInHeap(locale, groups, buddies, h, group);
      assert orphan <==> (exists b :: b in found && buddies[b].group == group)
                         && (forall b | b in found :: buddies[b].group == group);
    }

    /** prep_remove_from_group */
    method PrepareRemoval(name: string, contacts: set<Contact>) returns (ok: bool)
      requires Valid()
      modifies this`groups, this`buddies, this`nextAddress, this`signals
      ensures Valid() && Abs() == Prepare(locale, old(Abs()), name, contacts)
      ensures ok <==> !Blocked(locale, old(Abs()), name, contacts)
      ensures !ok ==> groups == old(groups) && buddies == old(buddies)
      ensures old(InSync()) ==> InSync()
    {
      ghost var r := Abs();
      RelationIsValid(locale, groups, buddies);
      var group := FindGroup(name);
      if group.None? {
        return true;
      }
      var orphans := FindOrphans(group.value, contacts);
      if orphans != {} {
        ok := MoveToFallback(group.value, orphans);
      } else {
        ok := true;
      }
    }

    method FindOrphans(group: Address, contacts: set<Contact>) returns (orphans: set<Contact>)
      requires Valid() && group in groups
      ensures orphans == Orphans(Abs(), groups[group], contacts)
    {
      orphans := {};
      var todo, done := contacts, {};
      while todo != {}
        invariant done + todo == contacts
        invariant orphans == Orphans(Abs(), groups[group], done)
        decreases todo
      {
        var h :| h in todo;
        var orphan := IsOrphan(h, group);
        if orphan {
          orphans := orphans + {h};
        }
        todo, done := todo - {h}, done + {h};
      }
      assert done == contacts;
    }

    method MoveToFallback(group: Address, orphans: set<Contact>) returns (ok: bool)
      requires Valid() && group in groups && orphans != {}
      requires orphans == Orphans(Abs(), groups[group], orphans)
      modifies this`groups, this`buddies, this`nextAddress, this`signals
      ensures Valid()
      ensures ok <==> Resolve(locale, old(Abs()).groups, locale.fallback) != old(groups)[group]
      ensures ok ==> Abs() == Put(locale, old(Abs()), locale.fallback, orphans)
      ensures !ok ==> groups == old(groups) && buddies == old(buddies)
      ensures old(InSync()) ==> InSync()
    {
      assert AllIn(buddies, orphans, group) by {
        OrphansInHeap(locale, groups, buddies, orphans, group);
      }
      var defaultGroup := NewGroup(locale.fallback);
      AnnounceGroup(locale.fallback);
      ok := defaultGroup != group;
      if ok {
        ElsewhereAbsent(buddies, orphans, group, defaultGroup);
        AddCopies(orphans, defaultGroup);
        PutPairs(locale, old(Abs()), locale.fallback, orphans);
      }
    }

    method AddCopies(contacts: set<Contact>, group: Address)
      requires Valid() && group in groups && AllAbsent(buddies, contacts, group)
      modifies this`buddies, this`nextAddress, this`signals
      ensures Valid()
      ensures Abs() == old(Abs()).(members := old(Abs()).members + Pairs(contacts, groups[group]))
      ensures old(InSync()) ==> InSync()
    {
      ghost var r, g := Abs(), groups[group];
      var todo, done := contacts, {};
      assert Pairs({}, g) == {};
      while todo != {}
        invariant Valid() && done + todo == contacts
        invariant Abs() == r.(members := r.members + Pairs(done, g))
        invariant AllAbsent(buddies, todo, group)
        invariant old(InSync()) ==> InSync()
        decreases todo
      {
        var h :| h in todo;
        OneLessAbsent(buddies, todo, nextAddress, h, group);
        PairsOneMore(done, h, g);
        AddBuddy(h, group);
        todo, done := todo - {h}, done + {h};
      }
      assert done == contacts;
    }

    method RemoveIfIn(b: Address, group: Address)
      requires Valid() && b in buddies
      modifies this`buddies, this`signals
      ensures Valid()
      ensures buddies == if old(buddies)[b].group == group then old(buddies) - {b} else old(buddies)
      ensures old(InSync()) ==> InSync()
    {
      if buddies[b].group == group {
        RemoveBuddy(b);
      }
    }

    /** Takes a contact's buddies out of a group, however many there are. */
    method RemoveOneFromGroup(h: Contact, group: Address)
      requires Valid() && group in groups
      modifies this`buddies, this`signals
      ensures Valid() && Abs() == Drop(old(Abs()), groups[group], {h})
      ensures buddies == old(buddies) - BuddiesIn(old(buddies), {h}, group)
      ensures old(InSync()) ==> InSync()
    {
      var found := FindBuddies(h);
      ghost var all, doomed := buddies, InGroup(buddies, group);
      var i := 0;
      while i < |found|
        invariant Valid() && 0 <= i <= |found|
        invariant buddies == Left(all, found[..i], doomed)
        invariant old(InSync()) ==> InSync()
      {
        assert found[i] in found;
        LeftNext(all, found, i, doomed);
        assert found[i] in doomed <==> buddies[found[i]].group == group;
        RemoveIfIn(found[i], group);
        i := i + 1;
      }
      assert found[..i] == found;
      RelationDrop(locale, groups, all, Chosen(found, doomed), group, {h});
      assert Chosen(found, doomed) == BuddiesIn(all, {h}, group);
    }

    method RemoveManyFromGroup(name: string, contacts: set<Contact>)
      requires Valid()
      modifies this`buddies, this`signals
      ensures Valid() && Abs() == RemoveMany(locale, old(Abs()), name, contacts)
      ensures Find(locale, Abs().groups, name).None? ==> buddies == old(buddies)
      ensures forall i | i in groups && Find(locale, Abs().groups, name) == Some(groups[i]) ::
                buddies == old(buddies) - BuddiesIn(old(buddies), contacts, i)
      ensures old(InSync()) ==> InSync()
    {
      var group := FindGroup(name);
      if group.None? {
        return;
      }
      var todo, done := contacts, {};
      while todo != {}
        invariant Valid() && done + todo == contacts
        invariant Abs() == Drop(old(Abs()), groups[group.value], done)
        invariant buddies == old(buddies) - BuddiesIn(old(buddies), done, group.value)
        invariant old(InSync()) ==> InSync()
        decreases todo
      {
        var h :| h in todo;
        BuddiesInOneMore(old(buddies), done, h, group.value);
        RemoveOneFromGroup(h, group.value);
        todo, done := todo - {h}, done + {h};
      }
      assert done == contacts;
    }

    method RemoveFromGroup(name: string, contacts: set<Contact>) returns (outcome: Outcome)
      requires Valid()
      modifies this`groups, this`buddies, this`nextAddress, this`signals
      ensures Valid()
      ensures outcome == OutcomeOf(locale, old(Abs()), Op.RemoveFromGroup(name, contacts))
      ensures Abs() == Apply(locale, old(Abs()), Op.RemoveFromGroup(name, contacts))
      ensures outcome != Success ==> groups == old(groups) && buddies == old(buddies)
      ensures old(InSync()) ==> InSync()
    {
      var ok := PrepareRemoval(name, contacts);
      if !ok {
        return NotAvailable;
      }
      RemoveManyFromGroup(name, contacts);
      outcome := Success;
    }

    /** dup_group_members */
    method DupGroupMembers(name: string) returns (members: set<Contact>)
      requires Valid()
      ensures members == MembersOf(locale, Abs(), name)
    {
      members := {};
      var group := FindGroup(name);
      if group.None? {
        return;
      }
      var keys := buddies.Keys;
      while keys != {}
        invariant keys <= buddies.Keys
        invariant members == set b | b in buddies && b !in keys && buddies[b].group == group.value :: buddies[b].contact
        decreases keys
      {
        var b :| b in keys;
        if buddies[b].group == group.value {
          members := members + {buddies[b].contact};
        }
        keys := keys - {b};
      }
      MembersInHeap(locale, groups, buddies, name, group.value);
    }

    method SetGroupMembers(name: string, contacts: set<Contact>) returns (outcome: Outcome)
      requires Valid() && locale.Printable(name)
      modifies this`groups, this`buddies, this`nextAddress, this`signals
      ensures Valid()
      ensures outcome == OutcomeOf(locale, old(Abs()), Op.SetGroupMembers(name, contacts))
      ensures Abs() == Apply(locale, old(Abs()), Op.SetGroupMembers(name, contacts))
      ensures outcome != Success ==> groups == old(groups) && buddies == old(buddies)
      ensures old(InSync()) ==> InSync()
    {
      var outcasts := DupGroupMembers(name);
      var group := NewGroup(name);
      AnnounceGroup(name);
      outcasts := outcasts - contacts;
      RelationIsValid(locale, old(groups), old(buddies));
      ReplaceInSteps(locale, old(Abs()), name, contacts, outcasts);
      var ok := ReplaceMembers(name, contacts, outcasts);
      outcome := if ok then Success else NotAvailable;
    }

    /** What set_group_members does once it knows the outcasts. */
    method ReplaceMembers(name: string, contacts: set<Contact>, outcasts: set<Contact>) returns (ok: bool)
      requires Valid() && locale.Printable(name)
      modifies this`groups, this`buddies, this`nextAddress, this`signals
      ensures Valid()
      ensures ok <==> !Blocked(locale, old(Abs()), name, outcasts)
      ensures ok ==>
                Abs() == RemoveMany(locale, Put(locale, Prepare(locale, old(Abs()), name, outcasts), name, contacts),
                                    name, outcasts)
      ensures !ok ==> groups == old(groups) && buddies == old(buddies)
      ensures old(InSync()) ==> InSync()
    {
      ok := PrepareRemoval(name, outcasts);
      if ok {
        AddManyToGroup(name, contacts);
        RemoveManyFromGroup(name, outcasts);
      }
    }

    method RenameGroup(oldName: string, newName: string) returns (outcome: Outcome)
      requires Valid() && locale.Printable(newName)
      modifies this`groups, this`signals
      ensures Valid()
      ensures outcome == OutcomeOf(locale, old(Abs()), Op.RenameGroup(oldName, newName))
      ensures Abs() == Apply(locale, old(Abs()), Op.RenameGroup(oldName, newName))
      ensures outcome != Success ==> groups == old(groups) && signals == old(signals)
      ensures outcome == Success && old(InSync()) ==>
                (InSync() <==> oldName in old(Abs()).groups || MembersOf(locale, old(Abs()), oldName) == {})
    {
      RenameCases(locale, Abs(), oldName, newName);
      var group := FindGroup(oldName);
      var other := FindGroup(newName);
      if group.None? {
        return DoesNotExist;
      }
      if other.Some? {
        return NotAvailable;
      }
      RenameTo(group.value, oldName, newName);
      outcome := Success;
    }

    method RenameTo(group: Address, oldName: string, newName: string)
      requires Valid() && locale.Printable(newName) && group in groups
      requires Find(locale, Abs().groups, oldName) == Some(groups[group]) && Find(locale, Abs().groups, newName).None?
      modifies this`groups, this`signals
      ensures Valid() && Abs() == Rename(old(Abs()), old(groups)[group], newName)
      ensures old(InSync()) ==>
                (InSync() <==> oldName in old(Abs()).groups || MembersOf(locale, old(Abs()), oldName) == {})
    {
      RenameKeepsSynced(locale, snapshot, signals, groups, buddies, group, oldName, newName);
      BlistRenameGroup(group, newName);
      signals := signals + [GroupRenamed(oldName, newName)];
    }

    /** purple_blist_rename_group, for a name that finds no other group. */
    method BlistRenameGroup(group: Address, name: string)
      requires Valid() && group in groups
      requires locale.Printable(name) && Find(locale, Abs().groups, name).None?
      modifies this`groups
      ensures Valid() && groups == old(groups)[group := name]
      ensures Abs() == Rename(old(Abs()), old(groups)[group], name)
    {
      RelationRename(locale, groups, buddies, group, name);
      RenameKeepsWellFormed(locale, groups, buddies, group, name);
      groups := groups[group := name];
    }

    method SetContactGroups(h: Contact, names: seq<string>)
      requires Valid() && NamesPrintable(locale, Op.SetContactGroups(h, names))
      modifies this`groups, this`buddies, this`nextAddress, this`signals
      ensures Valid() && Abs() == Apply(locale, old(Abs()), Op.SetContactGroups(h, names))
      ensures old(InSync()) ==> InSync()
    {
      var wanted := if names == [] then [locale.fallback] else names;
      AddToEach(wanted, h);
      KeepOnly(h, wanted);
    }

    /** Puts the contact in any groups it ought to be in. */
    method AddToEach(names: seq<string>, h: Contact)
      requires Valid() && forall n | n in names :: locale.Printable(n)
      modifies this`groups, this`buddies, this`nextAddress, this`signals
      ensures Valid() && Abs() == PutInEach(locale, old(Abs()), names, h)
      ensures old(InSync()) ==> InSync()
    {
      var i := 0;
      while i < |names|
        invariant Valid() && 0 <= i <= |names|
        invariant Abs() == PutInEach(locale, old(Abs()), names[..i], h)
        invariant old(InSync()) ==> InSync()
      {
        assert names[..i + 1][..i] == names[..i];
        AddToGroup(names[i], h);
        i := i + 1;
      }
      assert names[..i] == names;
    }

    static method IsAmong(name: string, names: seq<string>) returns (found: bool)
      ensures found <==> name in names
    {
      for i := 0 to |names|
        invariant name !in names[..i]
      {
        if name == names[i] {
          return true;
        }
      }
      found := false;
    }

    method RemoveUnwanted(b: Address, wanted: seq<string>)
      requires Valid() && b in buddies
      modifies this`buddies, this`signals
      ensures Valid()
      ensures buddies == if groups[old(buddies)[b].group] in wanted then old(buddies) else old(buddies) - {b}
      ensures old(InSync()) ==> InSync()
    {
      var desired := IsAmong(groups[buddies[b].group], wanted);
      if !desired {
        RemoveBuddy(b);
      }
    }

    /** Deletes the contact's buddies in groups whose stored name is not wanted. */
    method KeepOnly(h: Contact, wanted: seq<string>)
      requires Valid()
      modifies this`buddies, this`signals
      ensures Valid()
      ensures Abs() == old(Abs()).(members := set m | m in old(Abs()).members && (m.0 == h ==> m.1 in wanted))
      ensures buddies == old(buddies) - set b | b in old(buddies) && old(buddies)[b].contact == h &&
                                                groups[old(buddies)[b].group] !in wanted
      ensures old(InSync()) ==> InSync()
    {
      var found := FindBuddies(h);
      ghost var all, doomed := buddies, Unwanted(groups, buddies, wanted);
      RemoveEachUnwanted(found, wanted);
      var keep := (m: (Contact, string)) => m.0 == h ==> m.1 in wanted;
      RelationFilter(groups, all, Chosen(found, doomed), keep);
    }

    method RemoveEachUnwanted(found: seq<Address>, wanted: seq<string>)
      requires Valid() && forall b | b in found :: b in buddies
      requires forall i, j | 0 <= i < j < |found| :: found[i] != found[j]
      modifies this`buddies, this`signals
      ensures Valid() && buddies == Left(old(buddies), found, Unwanted(groups, old(buddies), wanted))
      ensures old(InSync()) ==> InSync()
    {
      ghost var all := buddies;
      var i := 0;
      while i < |found|
        invariant Valid() && 0 <= i <= |found|
        invariant buddies == Left(all, found[..i], Unwanted(groups, all, wanted))
        invariant old(InSync()) ==> InSync()
      {
        assert found[i] in found;
        NextUnwanted(groups, all, found, i, wanted);
        RemoveUnwanted(found[i], wanted);
        i := i + 1;
      }
      assert found[..i] == found;
    }

    /** request_subscription, for a contact that is not yet on the list; libpurple's default group is the fallback. */
    method RequestSubscription(h: Contact)
      requires Valid() && h !in Contacts(Abs())
      modifies this`groups, this`buddies, this`nextAddress, this`signals
      ensures Valid() && Abs() == Put(locale, old(Abs()), locale.fallback, {h})
      ensures var g, known := Resolve(locale, old(Abs()).groups, locale.fallback), old(Known());
              Known() == known.(members := known.members + {(h, g)}, contacts := known.contacts + {h})
      ensures old(InSync()) ==>
                (InSync() <==> Resolve(locale, old(Abs()).groups, locale.fallback) in old(Known()).groups)
    {
      NobodysBuddies(groups, buddies, h);
      PutNobody(locale, Abs(), locale.fallback);
      PutOne(locale, Abs(), locale.fallback, h);
      var group := NewGroup(locale.fallback);
      ReplayAddition(snapshot, signals, h, groups[group]);
      AddedContacts(old(Abs()), h, groups[group]);
      AddBuddy(h, group);
    }

    /** Takes the contact off the roster, and declines the request it may have made. */
    method RemoveContact(h: Contact, requests: PublishRequests.PublishList)
      requires Valid()
      modifies this`buddies, this`signals, requests
      ensures Valid()
      ensures requests.Abs() == PublishRequests.Step(old(requests.Abs()), PublishRequests.Reject(h))
      ensures Abs() == old(Abs()).(members := set m | m in old(Abs()).members && m.0 != h)
      ensures buddies == old(buddies) - BuddiesOf(old(buddies), h)
      ensures old(InSync()) ==> InSync()
    {
      RemoveBuddies(h);
      requests.RejectPublishRequest(h);
    }

    method RemoveBuddies(h: Contact)
      requires Valid()
      modifies this`buddies, this`signals
      ensures Valid()
      ensures Abs() == old(Abs()).(members := set m | m in old(Abs()).members && m.0 != h)
      ensures buddies == old(buddies) - BuddiesOf(old(buddies), h)
      ensures old(InSync()) ==> InSync()
    {
      var found := FindBuddies(h);
      ghost var all, doomed := buddies, buddies.Keys;
      var i := 0;
      while i < |found|
        invariant Valid() && 0 <= i <= |found|
        invariant buddies == Left(all, found[..i], doomed)
        invariant old(InSync()) ==> InSync()
      {
        assert found[i] in found;
        LeftNext(all, found, i, doomed);
        RemoveBuddy(found[i]);
        i := i + 1;
      }
      assert found[..i] == found;
      assert Chosen(found, doomed) == BuddiesOf(all, h);
      RelationWithout(groups, all, h);
    }

    /** Libpurple deletes every buddy after disconnection; clients hear nothing of it. */
    method Disconnect()
      requires Valid()
      modifies this`disconnected
      ensures disconnected && Valid()
    {
      disconnected := true;
    }
  }

  lemma PutNobody(L: Locale, r: Roster, name: string)
    ensures Put(L, r, name, {}) == r.(groups := r.groups + {Resolve(L, r.groups, name)})
  {
  }

  /** set_group_members, step by step. A group that had to be created has nobody to stand in the way. */
  lemma ReplaceInSteps(L: Locale, r: Roster, name: string, hs: set<Contact>, outcasts: set<Contact>)
    requires Valid(L, r) && outcasts == MembersOf(L, r, name) - hs
    ensures var created, op := Put(L, r, name, {}), Op.SetGroupMembers(name, hs);
            if Blocked(L, created, name, outcasts) then
              Apply(L, r, op) == created == r && OutcomeOf(L, r, op) == NotAvailable && Find(L, r.groups, name).Some?
            else
              && Apply(L, r, op) == RemoveMany(L, Put(L, Prepare(L, created, name, outcasts), name, hs), name, outcasts)
              && OutcomeOf(L, r, op) == Success
  {
    PutNobody(L, r, name);
    if Blocked(L, Put(L, r, name, {}), name, outcasts) {
      assert outcasts != {};
    }
  }

  lemma RenameCases(L: Locale, r: Roster, oldName: string, newName: string)
    ensures var from, other := Find(L, r.groups, oldName), Find(L, r.groups, newName);
            var op := Op.RenameGroup(oldName, newName);
            if from.None? then OutcomeOf(L, r, op) == DoesNotExist && Apply(L, r, op) == r
            else if other.Some? then OutcomeOf(L, r, op) == NotAvailable && Apply(L, r, op) == r
            else OutcomeOf(L, r, op) == Success && Apply(L, r, op) == Rename(r, from.value, newName)
  {
  }

  lemma PutPairs(L: Locale, r: Roster, name: string, hs: set<Contact>)
    ensures var g := Resolve(L, r.groups, name);
            && Put(L, r, name, hs) == Roster(r.groups + {g}, r.members + Pairs(hs, g))
            && Put(L, r, name, {}) == r.(groups := r.groups + {g})
  {
  }

  lemma PutOne(L: Locale, r: Roster, name: string, h: Contact)
    ensures var g := Resolve(L, r.groups, name);
            Put(L, r, name, {h}) == Roster(r.groups + {g}, r.members + {(h, g)})
  {
  }

  lemma PutMore(L: Locale, r: Roster, name: string, done: set<Contact>, more: set<Contact>)
    requires Valid(L, r) && L.Printable(name)
    ensures Put(L, Put(L, r, name, done), name, more) == Put(L, r, name, done + more)
  {
    var g := Resolve(L, r.groups, name);
    PutKeepsValid(L, r, name, done);
    ResolveStored(L, Put(L, r, name, done), name, g);
  }

  lemma OrphanInHeap(L: Locale, groups: Groups, buddies: Buddies, h: Contact, i: Address)
    requires WellFormed(L, groups, buddies) && i in groups
    ensures h in Orphans(Relation(groups, buddies), groups[i], {h}) <==>
            && (exists b :: b in buddies && buddies[b].contact == h && buddies[b].group == i)
            && (forall b | b in buddies && buddies[b].contact == h :: buddies[b].group == i)
  {
    var r := Relation(groups, buddies);
    RelationHas(groups, buddies, h, i);
    if h in Orphans(r, groups[i], {h}) {
      forall b | b in buddies && buddies[b].contact == h
        ensures buddies[b].group == i
      {
        assert (buddies[b].contact, groups[buddies[b].group]) in r.members;
        assert groups[buddies[b].group] in GroupsOf(r, h);
      }
    }
  }

  lemma OrphansInHeap(L: Locale, groups: Groups, buddies: Buddies, orphans: set<Contact>, i: Address)
    requires WellFormed(L, groups, buddies) && i in groups
    requires orphans == Orphans(Relation(groups, buddies), groups[i], orphans)
    ensures AllIn(buddies, orphans, i)
  {
    forall b | b in buddies && buddies[b].contact in orphans
      ensures buddies[b].group == i
    {
      OrphanInHeap(L, groups, buddies, buddies[b].contact, i);
    }
  }

  /** Whatever the spelling, clients know of every group afterwards. */
  lemma RenameKeepsGroupsKnown(L: Locale, r: Roster, known: View, from: string, signalled: string, to: string)
    requires Valid(L, r) && Find(L, r.groups, signalled) == Some(from) && r.groups <= known.groups
    ensures Rename(r, from, to).groups <= React(known, GroupRenamed(signalled, to)).groups
  {
    forall g | g in Rename(r, from, to).groups
      ensures g == to || (g in r.groups && g != signalled)
    {
      var k :| k in r.groups && g == Renamed(from, to, k);
      assert k == signalled ==> k == from;
    }
  }

  /** Clients follow a rename if it is signalled under the stored name, or if there was nobody in the group. */
  lemma RenameReaction(L: Locale, r: Roster, known: View, from: string, signalled: string, to: string)
    requires Valid(L, r) && Find(L, r.groups, signalled) == Some(from) && to !in r.groups
    requires Follows(known, r)
    ensures Follows(React(known, GroupRenamed(signalled, to)), Rename(r, from, to)) <==>
            signalled in r.groups || MembersOf(L, r, signalled) == {}
  {
    var v := React(known, GroupRenamed(signalled, to));
    RenameKeepsGroupsKnown(L, r, known, from, signalled, to);
    RenameMembers(L, r, from, to);
    if signalled in r.groups {
      ResolveStored(L, r, signalled, signalled);
    } else {
      forall m | m in r.members
        ensures (m.0, Renamed(signalled, to, m.1)) == m
      {
        assert (m.0, m.1) in r.members;
      }
      assert v.members == r.members;
      if MembersOf(L, r, signalled) != {} {
        var h :| h in MembersOf(L, r, signalled);
        assert (h, from) in v.members && (h, from) !in Rename(r, from, to).members;
      } else {
        forall m | m in r.members
          ensures (m.0, Renamed(from, to, m.1)) == m
        {
          assert (m.0, m.1) in r.members && m.0 in Contacts(r);
          assert m.1 == from ==> m.0 in MembersOf(L, r, signalled);
        }
      }
    }
  }

  /** Such a rename exists: "b" is renamed "c" by a client that calls it "B". */
  lemma OtherSpellingMisleads() returns (L: Locale, r: Roster)
    ensures L.Lawful() && Valid(L, r) && Find(L, r.groups, "B") == Some("b") && "c" !in r.groups
    ensures !Follows(React(ViewOf(r), GroupRenamed("B", "c")), Rename(r, "b", "c"))
  {
    L, r := TwoSpellings("a");
    ResolveStored(L, r, "B", "b");
    assert "c"[0] != "b"[0] && (1, "b") in r.members && 1 in MembersOf(L, r, "B");
    RenameReaction(L, r, ViewOf(r), "b", "B", "c");
  }

  /** libpurple's default group, made for a contact that is asked for, is not announced: a client that starts from an
      empty roster is told of the membership but never of the group. */
  lemma DefaultGroupIsNotAnnounced(L: Locale, h: Contact)
    requires L.Lawful()
    ensures var r := Roster({}, {});
            && Valid(L, r) && Follows(ViewOf(r), r)
            && !Follows(Replay(ViewOf(r), AdditionSignals(h, L.fallback)), Put(L, r, L.fallback, {h}))
  {
    var r := Roster({}, {});
    ReplayAddition(ViewOf(r), [], h, L.fallback);
    assert [] + AdditionSignals(h, L.fallback) == AdditionSignals(h, L.fallback);
    assert L.fallback in Put(L, r, L.fallback, {h}).groups;
  }

  /** Under a normalised name clients always follow. */
  lemma NormalizedRenameIsFollowed(L: Locale, r: Roster, known: View, from: string, oldName: string, to: string)
    requires Follows(known, r) && L.Lawful() && Valid(L, r) && Normalized(L, r, [oldName])
    requires Find(L, r.groups, oldName) == Some(from) && to !in r.groups
    ensures Follows(React(known, GroupRenamed(oldName, to)), Rename(r, from, to))
  {
    assert oldName in [oldName];
    NormalizeIdempotent(L, r, oldName);
    RenameReaction(L, r, known, from, oldName, to);
  }

  lemma NobodysBuddies(groups: Groups, buddies: Buddies, h: Contact)
    requires Pointing(groups, buddies) && h !in Contacts(Relation(groups, buddies))
    ensures forall b | b in buddies :: buddies[b].contact != h
  {
    forall b | b in buddies
      ensures buddies[b].contact != h
    {
      var m := (buddies[b].contact, groups[buddies[b].group]);
      assert m in Relation(groups, buddies).members && m.0 == buddies[b].contact;
    }
  }

  lemma RenameKeepsSynced(L: Locale, v: View, signals: seq<Signal>, groups: Groups, buddies: Buddies, i: Address,
                          signalled: string, to: string)
    requires WellFormed(L, groups, buddies) && i in groups
    requires var r := Relation(groups, buddies);
             Find(L, r.groups, signalled) == Some(groups[i]) && to !in r.groups
    ensures var r := Relation(groups, buddies);
            Synced(v, signals, groups, buddies) ==>
              (Synced(v, signals + [GroupRenamed(signalled, to)], groups[i := to], buddies) <==>
               signalled in r.groups || MembersOf(L, r, signalled) == {})
  {
    RelationIsValid(L, groups, buddies);
    ReplayOne(v, signals, GroupRenamed(signalled, to));
    RelationRename(L, groups, buddies, i, to);
    if Synced(v, signals, groups, buddies) {
      RenameReaction(L, Relation(groups, buddies), Replay(v, signals), groups[i], signalled, to);
    }
  }

  lemma MembersInHeap(L: Locale, groups: Groups, buddies: Buddies, name: string, i: Address)
    requires WellFormed(L, groups, buddies) && i in groups
    requires Find(L, Relation(groups, buddies).groups, name) == Some(groups[i])
    ensures MembersOf(L, Relation(groups, buddies), name) ==
            set b | b in buddies && buddies[b].group == i :: buddies[b].contact
  {
    var r := Relation(groups, buddies);
    forall h
      ensures h in MembersOf(L, r, name) <==> exists b :: b in buddies && buddies[b] == Buddy(h, i)
    {
      RelationHas(groups, buddies, h, i);
      if (h, groups[i]) in r.members {
        assert (h, groups[i]).0 in Contacts(r);
      }
    }
  }

  /** Without repeated buddies, a buddy is a contact's last exactly when its group is the contact's only one. */
  lemma LastBuddy(L: Locale, groups: Groups, buddies: Buddies, b: Address)
    requires WellFormed(L, groups, buddies) && b in buddies && Distinct(buddies)
    ensures var (h, g) := (buddies[b].contact, groups[buddies[b].group]);
            && (h, g) in Relation(groups, buddies).members
            && ((forall a | a in buddies && buddies[a].contact == h :: a == b) <==>
                forall k | (h, k) in Relation(groups, buddies).members :: k == g)
  {
    var h, g := buddies[b].contact, groups[buddies[b].group];
    var members := Relation(groups, buddies).members;
    assert (buddies[b].contact, groups[buddies[b].group]) in members;
    if forall k | (h, k) in members :: k == g {
      forall a | a in buddies && buddies[a].contact == h
        ensures a == b
      {
        assert (buddies[a].contact, groups[buddies[a].group]) in members;
      }
    }
  }
}
