/** The user tables of the IPMI server: three ordered dictionaries rebuilt on every rename
    (conpot/protocols/ipmi/ipmi_server.py). */
module IpmiUsers {
  import opened Bytes
  import opened Common

  type Name = seq<byte>

  /** `collections.OrderedDict`: items in insertion order. */
  type Table<V> = seq<(Name, V)>

  function Keys<V>(t: Table<V>): (ks: seq<Name>)
    ensures |ks| == |t| && forall i :: 0 <= i < |t| ==> ks[i] == t[i].0
  {
    seq(|t|, i requires 0 <= i < |t| => t[i].0)
  }

  function Values<V>(t: Table<V>): (vs: seq<V>)
    ensures |vs| == |t| && forall i :: 0 <= i < |t| ==> vs[i] == t[i].1
  {
    seq(|t|, i requires 0 <= i < |t| => t[i].1)
  }

  /** The position of `k`, or |ks|. */
  function IndexOf(ks: seq<Name>, k: Name): (i: nat)
    ensures i <= |ks| && (i < |ks| ==> ks[i] == k) && (forall j :: 0 <= j < i ==> ks[j] != k)
  {
    if ks == [] || ks[0] == k then 0 else 1 + IndexOf(ks[1..], k)
  }

  /** `d.update({k: v})` */
  function Put<V>(t: Table<V>, k: Name, v: V): Table<V> {
    var i := IndexOf(Keys(t), k);
    if i < |t| then t[i := (k, v)] else t + [(k, v)]
  }

  /** `OrderedDict(items)`: a repeated key keeps its first place and takes its last value. */
  function Collapse<V>(items: seq<(Name, V)>): Table<V> {
    if items == [] then []
    else Put(Collapse(items[..|items| - 1]), items[|items| - 1].0, items[|items| - 1].1)
  }

  /** The first occurrences of a list of keys. */
  function Dedup(ks: seq<Name>): seq<Name> {
    if ks == [] then []
    else
      var first, last := Dedup(ks[..|ks| - 1]), ks[|ks| - 1];
      if last in first then first else first + [last]
  }

  /** The keys of a built dictionary depend on the keys put in, not on the values. */
  lemma {:induction false} CollapseKeys<V>(items: seq<(Name, V)>)
    ensures Keys(Collapse(items)) == Dedup(Keys(items))
    decreases |items|
  {
    if items != [] {
      var n := |items| - 1;
      CollapseKeys(items[..n]);
      assert Keys(items)[..n] == Keys(items[..n]);
      var t, k := Collapse(items[..n]), items[n].0;
      var i := IndexOf(Keys(t), k);
      assert i < |t| <==> k in Keys(t);
      if i < |t| {
        assert Keys(t[i := (k, items[n].1)]) == Keys(t);
      } else {
        assert Keys(t + [(k, items[n].1)]) == Keys(t) + [k];
      }
    } else {
      assert Keys(items) == [];
    }
  }

  lemma {:induction false} DedupFacts(ks: seq<Name>)
    ensures Distinct(Dedup(ks)) && |Dedup(ks)| <= |ks|
    ensures forall k :: k in Dedup(ks) <==> k in ks
    ensures Distinct(ks) ==> Dedup(ks) == ks
    ensures |Dedup(ks)| == |ks| ==> Distinct(ks)
    decreases |ks|
  {
    if ks != [] {
      var n := |ks| - 1;
      DedupFacts(ks[..n]);
      assert ks == ks[..n] + [ks[n]];
      if Distinct(ks) {
        assert ks[n] !in ks[..n];
      }
    }
  }

  lemma {:induction false} CollapseDistinct<V>(items: seq<(Name, V)>)
    requires Distinct(Keys(items))
    ensures Collapse(items) == items
    decreases |items|
  {
    if items != [] {
      var n := |items| - 1;
      assert Keys(items)[..n] == Keys(items[..n]);
      CollapseDistinct(items[..n]);
      assert items == items[..n] + [items[n]];
    }
  }

  // ----- renaming one slot

  function Retagged<V>(t: Table<V>, i: nat, name: Name): (items: seq<(Name, V)>)
    requires i < |t|
    ensures Keys(items) == Keys(t)[i := name] && Values(items) == Values(t)
  {
    t[i := (name, t[i].1)]
  }

  /** What the rename loop builds. */
  function Renamed<V>(t: Table<V>, i: nat, name: Name): Table<V>
    requires i < |t|
  {
    Collapse(Retagged(t, i, name))
  }

  predicate Collides(ks: seq<Name>, i: nat, name: Name) {
    exists j :: 0 <= j < |ks| && j != i && ks[j] == name
  }

  lemma DistinctAfterRename(ks: seq<Name>, i: nat, name: Name)
    requires i < |ks| && Distinct(ks)
    ensures Distinct(ks[i := name]) <==> !Collides(ks, i, name)
  {
    var ks' := ks[i := name];
    if Collides(ks, i, name) {
      var j :| 0 <= j < |ks| && j != i && ks[j] == name;
      assert ks'[j] == ks'[i];
    }
  }

  /** A rename changes that slot's name and nothing else if the new name is free; otherwise, and only
      then, a user disappears. */
  lemma RenameKeepsOthers<V>(t: Table<V>, i: nat, name: Name)
    requires i < |t| && Distinct(Keys(t))
    ensures Distinct(Keys(Renamed(t, i, name)))
    ensures !Collides(Keys(t), i, name) ==> Renamed(t, i, name) == t[i := (name, t[i].1)]
    ensures Collides(Keys(t), i, name) ==> |Renamed(t, i, name)| < |t|
  {
    var items := Retagged(t, i, name);
    DistinctAfterRename(Keys(t), i, name);
    CollapseKeys(items);
    DedupFacts(Keys(items));
    if !Collides(Keys(t), i, name) {
      CollapseDistinct(items);
    }
  }

  // ----- the server's state

  datatype Users = Users(auth: Table<Name>, priv: Table<nat>, channel: Table<Name>, active: seq<bool>)

  /** The three tables list the same distinct users in the same order, and every user has a flag. */
  predicate Consistent(u: Users) {
    && Distinct(Keys(u.auth))
    && Keys(u.priv) == Keys(u.auth) && Keys(u.channel) == Keys(u.auth)
    && |u.auth| <= |u.active|
  }

  const TRUE: Name := [0x74, 0x72, 0x75, 0x65]

  /** `_configure_users`, given the texts extracted from the template: four lists, each as long as the
      template has such entries. The texts that switch users on also serve as channel access. */
  function Configure(names: seq<Name>, passwords: seq<Name>, privileges: seq<int>, active: seq<Name>): Option<Users> {
    if exists i :: 0 <= i < |privileges| && !(0 < privileges[i] <= 4) then None
    else Some(Users(Collapse(Zip(names, passwords)), Collapse(Zip(names, Naturals(privileges))),
                    Collapse(Zip(names, active)), Flags(active)))
  }

  function Flags(active: seq<Name>): (fs: seq<bool>)
    ensures |fs| == |active|
  {
    seq(|active|, i requires 0 <= i < |active| => active[i] == TRUE)
  }

  function Naturals(s: seq<int>): (r: seq<nat>)
    requires forall i :: 0 <= i < |s| ==> 0 < s[i]
    ensures |r| == |s|
  {
    seq(|s|, i requires 0 <= i < |s| => s[i])
  }

  function Zip<V>(names: seq<Name>, vs: seq<V>): (items: seq<(Name, V)>)
    ensures |items| == Least(|names|, |vs|) && Keys(items) == names[..|items|]
  {
    var n := Least(|names|, |vs|);
    seq(n, i requires 0 <= i < n => (names[i], vs[i]))
  }

  lemma DedupOneMore(ks: seq<Name>, j: nat)
    requires 0 < j <= |ks|
    ensures var before := Dedup(ks[..j - 1]);
      && Dedup(ks[..j]) == (if ks[j - 1] in before then before else before + [ks[j - 1]])
      && forall k :: k in before <==> k in ks[..j - 1]
  {
    DedupFacts(ks[..j - 1]);
    assert ks[..j][..j - 1] == ks[..j - 1];
  }

  lemma {:induction false} DedupGrows(ks: seq<Name>, i: nat, j: nat)
    requires i <= j <= |ks|
    ensures Dedup(ks[..i]) <= Dedup(ks[..j])
    decreases j
  {
    if i < j {
      DedupGrows(ks, i, j - 1);
      DedupOneMore(ks, j);
    }
  }

  /** No name from `i` on, up to `j`, is new. */
  ghost predicate Repeats(ks: seq<Name>, i: nat, j: nat)
    requires i <= j <= |ks|
  {
    forall t :: i <= t < j ==> ks[t] in ks[..i]
  }

  lemma {:induction false} RepeatsAddNothing(ks: seq<Name>, i: nat, j: nat)
    requires i <= j <= |ks| && Repeats(ks, i, j)
    ensures Dedup(ks[..i]) == Dedup(ks[..j])
    decreases j
  {
    if i < j {
      DedupOneMore(ks, j);
      InPrefix(ks, i, j - 1, ks[j - 1]);
      hide Dedup;
      RepeatsAddNothing(ks, i, j - 1);
    }
  }

  lemma InPrefix(ks: seq<Name>, i: nat, j: nat, k: Name)
    requires i <= j <= |ks| && k in ks[..i]
    ensures k in ks[..j]
  {
    assert ks[..j][..i] == ks[..i];
  }

  /** A longer prefix has the same users if and only if it brings no new name. */
  lemma DedupPrefix(ks: seq<Name>, i: nat, j: nat)
    requires i <= j <= |ks|
    ensures Dedup(ks[..i]) <= Dedup(ks[..j])
    ensures Dedup(ks[..i]) == Dedup(ks[..j]) <==> Repeats(ks, i, j)
  {
    DedupGrows(ks, i, j);
    if Repeats(ks, i, j) {
      RepeatsAddNothing(ks, i, j);
    } else {
      var t :| i <= t < j && ks[t] !in ks[..i];
      DedupFacts(ks[..i]);
      DedupFacts(ks[..j]);
      assert ks[..j][t] == ks[t];
    }
  }

  /** The tables of a template are consistent if and only if the names that not every list reaches are
      repetitions of names that every list does. */
  lemma ConfiguredIffCovered(names: seq<Name>, passwords: seq<Name>, privileges: seq<int>, active: seq<Name>)
    requires Configure(names, passwords, privileges, active).Some?
    ensures var p, v, a := Least(|names|, |passwords|), Least(|names|, |privileges|), Least(|names|, |active|);
      Consistent(Configure(names, passwords, privileges, active).value)
      <==> Repeats(names, Least(p, Least(v, a)), Greatest(p, Greatest(v, a)))
  {
    var p, v, a := Least(|names|, |passwords|), Least(|names|, |privileges|), Least(|names|, |active|);
    CollapseKeys(Zip(names, passwords));
    CollapseKeys(Zip(names, Naturals(privileges)));
    CollapseKeys(Zip(names, active));
    DedupFacts(names[..p]);
    DedupFacts(names[..a]);
    SamePrefixes(names, p, v, a);
  }

  lemma SamePrefixes(ks: seq<Name>, p: nat, v: nat, a: nat)
    requires p <= |ks| && v <= |ks| && a <= |ks|
    ensures Dedup(ks[..v]) == Dedup(ks[..p]) && Dedup(ks[..a]) == Dedup(ks[..p])
       <==> Repeats(ks, Least(p, Least(v, a)), Greatest(p, Greatest(v, a)))
  {
    var lo, hi := Least(p, Least(v, a)), Greatest(p, Greatest(v, a));
    DedupPrefix(ks, lo, hi);
    DedupPrefix(ks, lo, p);
    DedupPrefix(ks, lo, v);
    DedupPrefix(ks, lo, a);
    DedupPrefix(ks, p, hi);
    DedupPrefix(ks, v, hi);
    DedupPrefix(ks, a, hi);
  }

  /** With as many texts of each kind as names they always are; a template that misses a password of its
      last new user gives tables that differ. */
  lemma ConfiguredIsConsistent(names: seq<Name>, passwords: seq<Name>, privileges: seq<int>, active: seq<Name>)
    requires Configure(names, passwords, privileges, active).Some?
    ensures |names| == |passwords| == |privileges| == |active| ==>
      Consistent(Configure(names, passwords, privileges, active).value)
    ensures |passwords| < |names| == |privileges| && names[|names| - 1] !in names[..|names| - 1] ==>
      !Consistent(Configure(names, passwords, privileges, active).value)
  {
    ConfiguredIffCovered(names, passwords, privileges, active);
    if |passwords| < |names| == |privileges| && names[|names| - 1] !in names[..|names| - 1] {
      var p, v, a := Least(|names|, |passwords|), Least(|names|, |privileges|), Least(|names|, |active|);
      var lo, n := Least(p, Least(v, a)), |names| - 1;
      assert names[..lo] == names[..n][..lo];
      assert lo <= n < Greatest(p, Greatest(v, a)) && names[n] !in names[..lo];
    }
  }

  function LeftStrip(s: Name): Name {
    if s != [] && s[0] == 0 then LeftStrip(s[1..]) else s
  }

  function RightStrip(s: Name): Name {
    if s != [] && s[|s| - 1] == 0 then RightStrip(s[..|s| - 1]) else s
  }

  /** `strip('\x00')` */
  function Strip(s: Name): Name {
    RightStrip(LeftStrip(s))
  }

  /** `keys()[userid - 1]`: id 0 wraps to the last user, an id past the end raises. */
  function Slot(count: nat, userId: nat): Option<nat> {
    if count == 0 || userId > count then None
    else if userId == 0 then Some(count - 1)
    else Some(userId - 1)
  }

  /** Two tables with the same keys still have the same keys after a rename. */
  lemma RenamedTogether<A, B>(s: Table<A>, t: Table<B>, i: nat, name: Name)
    requires i < |s| && Keys(s) == Keys(t)
    ensures Keys(Renamed(s, i, name)) == Keys(Renamed(t, i, name))
  {
    CollapseKeys(Retagged(s, i, name));
    CollapseKeys(Retagged(t, i, name));
  }

  /** Each table is a dictionary; they need not list the same users. */
  predicate Keyed(u: Users) {
    Distinct(Keys(u.auth)) && Distinct(Keys(u.priv)) && Distinct(Keys(u.channel))
  }

  predicate Covers<V>(t: Table<V>, ks: seq<Name>) {
    forall i :: 0 <= i < |ks| ==> ks[i] in Keys(t)
  }

  /** `t[k]` */
  function Lookup<V>(t: Table<V>, k: Name): V
    requires k in Keys(t)
  {
    t[IndexOf(Keys(t), k)].1
  }

  /** The entries of `t` for `ks`, in that order. */
  function Follow<V>(t: Table<V>, ks: seq<Name>): (r: Table<V>)
    requires Covers(t, ks)
    ensures Keys(r) == ks && |r| == |ks|
  {
    seq(|ks|, i requires 0 <= i < |ks| => (ks[i], Lookup(t, ks[i])))
  }

  lemma FollowSelf<V>(t: Table<V>, ks: seq<Name>)
    requires Keys(t) == ks && Distinct(ks)
    ensures Covers(t, ks) && Follow(t, ks) == t
  {
    forall i | 0 <= i < |ks| ensures ks[i] in Keys(t) && Lookup(t, ks[i]) == t[i].1 {
      LookupAt(t, ks, i);
    }
  }

  lemma LookupAt<V>(t: Table<V>, ks: seq<Name>, i: nat)
    requires Keys(t) == ks && Distinct(ks) && i < |ks|
    ensures ks[i] in Keys(t) && Lookup(t, ks[i]) == t[i].1
  {
    assert ks[IndexOf(ks, ks[i])] == ks[i];
  }

  /** What the rename loop makes of a table: user ids count from 1, and id 0 renames nobody. */
  function Rebuilt<V>(t: Table<V>, userId: nat, name: Name): Table<V>
    requires userId <= |t|
  {
    if userId == 0 then t else Renamed(t, userId - 1, name)
  }

  /** The set-user-name command. The tables are rebuilt along the first; a user missing from another raises
      a KeyError before anything is replaced. */
  function SetName(u: Users, data: seq<byte>): (Option<byte>, Users)
    requires Keyed(u)
  {
    var ks := Keys(u.auth);
    if data == [] || Slot(|u.auth|, data[0]) == None || !Covers(u.priv, ks) || !Covers(u.channel, ks) then (None, u)
    else
      var userId, name := data[0], Strip(data[1..]);
      (Some(0), u.(auth := Rebuilt(u.auth, userId, name), priv := Rebuilt(Follow(u.priv, ks), userId, name),
                   channel := Rebuilt(Follow(u.channel, ks), userId, name)))
  }

  /** On consistent tables. */
  lemma SetNameConsistent(u: Users, data: seq<byte>)
    requires Consistent(u)
    ensures SetName(u, data) ==
      if data == [] || Slot(|u.auth|, data[0]) == None then (None, u)
      else
        var userId, name := data[0], Strip(data[1..]);
        (Some(0), u.(auth := Rebuilt(u.auth, userId, name), priv := Rebuilt(u.priv, userId, name),
                     channel := Rebuilt(u.channel, userId, name)))
  {
    FollowSelf(u.priv, Keys(u.auth));
    FollowSelf(u.channel, Keys(u.auth));
  }

  /** From whatever tables a template gave, a rename that does not raise leaves three that agree. */
  lemma RenameAligns(u: Users, data: seq<byte>)
    requires Keyed(u) && SetName(u, data).0 == Some(0)
    ensures var u' := SetName(u, data).1;
      Distinct(Keys(u'.auth)) && Keys(u'.priv) == Keys(u'.auth) && Keys(u'.channel) == Keys(u'.auth)
  {
    var ks := Keys(u.auth);
    if data[0] > 0 {
      var i, name := data[0] - 1, Strip(data[1..]);
      RenamedTogether(u.auth, Follow(u.priv, ks), i, name);
      RenamedTogether(u.auth, Follow(u.channel, ks), i, name);
      RenameKeepsOthers(u.auth, i, name);
    }
  }

  function PasswordOf(data: seq<byte>): Name
    requires |data| >= 2
  {
    var end := if data[0] >= 0x80 then 22 else 18;
    data[2..if |data| < end then |data| else end]
  }

  /** The set-user-password command: disable, enable, set or test. A user without a flag cannot be disabled
      or enabled. */
  function SetPassword(u: Users, data: seq<byte>): (r: (Option<byte>, Users))
    requires Keyed(u)
    ensures Keyed(r.1) && (Consistent(u) ==> Consistent(r.1))
  {
    if data == [] || Slot(|u.auth|, data[0] % 0x40) == None || |data| < 2 then (None, u)
    else if data[1] % 4 < 2 && Slot(|u.auth|, data[0] % 0x40).value >= |u.active| then (None, u)
    else
      var i, password := Slot(|u.auth|, data[0] % 0x40).value, PasswordOf(data);
      var code: byte := if |password| == 16 || |password| == 20 then 0 else 0x81;
      if data[1] % 4 == 0 then (Some(0), u.(active := u.active[i := false]))
      else if data[1] % 4 == 1 then (Some(0), u.(active := u.active[i := true]))
      else if data[1] % 4 == 2 then (Some(code), u.(auth := u.auth[i := (u.auth[i].0, Strip(password))]))
      else (Some(if u.auth[i].1 != Strip(password) then 0x80 else code), u)
  }

  datatype Command = NameCommand(data: seq<byte>) | PasswordCommand(data: seq<byte>)

  function Step(u: Users, c: Command): Users
    requires Consistent(u)
  {
    match c
    case NameCommand(data) => SetName(u, data).1
    case PasswordCommand(data) => SetPassword(u, data).1
  }

  predicate NameTaken(u: Users, c: Command) {
    c.NameCommand? && c.data != [] && 0 < c.data[0] <= |u.auth|
    && Collides(Keys(u.auth), c.data[0] - 1, Strip(c.data[1..]))
  }

  lemma ValuesAfterRename<V>(t: Table<V>, i: nat, name: Name)
    requires i < |t| && Distinct(Keys(t)) && !Collides(Keys(t), i, name)
    ensures Values(Renamed(t, i, name)) == Values(t)
  {
    RenameKeepsOthers(t, i, name);
  }

  lemma NameStepKeeps(u: Users, data: seq<byte>)
    requires Consistent(u) && data != [] && 0 < data[0] <= |u.auth|
    ensures var c := NameCommand(data);
      && Consistent(Step(u, c))
      && (NameTaken(u, c) ==> |Step(u, c).auth| < |u.auth|)
      && (!NameTaken(u, c) ==>
            && |Step(u, c).auth| == |u.auth| && Values(Step(u, c).priv) == Values(u.priv)
            && Values(Step(u, c).channel) == Values(u.channel))
  {
    var i: nat, name := data[0] - 1, Strip(data[1..]);
    var auth, priv, channel := Renamed(u.auth, i, name), Renamed(u.priv, i, name), Renamed(u.channel, i, name);
    SetNameConsistent(u, data);
    assert Step(u, NameCommand(data)) == Users(auth, priv, channel, u.active);
    assert |auth| <= |u.auth| by {
      RenameKeepsOthers(u.auth, i, name);
    }
    RenameKeepsOthers(u.auth, i, name);
    RenamedTogether(u.auth, u.priv, i, name);
    RenamedTogether(u.auth, u.channel, i, name);
    if !Collides(Keys(u.auth), i, name) {
      ValuesAfterRename(u.priv, i, name);
      ValuesAfterRename(u.channel, i, name);
    }
  }

  lemma PasswordStepKeeps(u: Users, data: seq<byte>)
    requires Consistent(u)
    ensures var u' := SetPassword(u, data).1;
      && |u'.auth| == |u.auth| && Keys(u'.auth) == Keys(u.auth) && |u'.active| == |u.active|
      && u'.priv == u.priv && u'.channel == u.channel
  {
  }

  /** What one command keeps. */
  lemma StepKeeps(u: Users, c: Command)
    requires Consistent(u)
    ensures Consistent(Step(u, c))
    ensures NameTaken(u, c) ==> |Step(u, c).auth| < |u.auth|
    ensures !NameTaken(u, c) ==>
      && |Step(u, c).auth| == |u.auth| && Values(Step(u, c).priv) == Values(u.priv)
      && Values(Step(u, c).channel) == Values(u.channel)
  {
    if c.PasswordCommand? {
      PasswordStepKeeps(u, c.data);
    } else if c.data != [] && 0 < c.data[0] <= |u.auth| {
      NameStepKeeps(u, c.data);
    } else {
      assert Step(u, c) == u;
    }
  }

  lemma NameKeepsKeyed(u: Users, data: seq<byte>)
    requires Keyed(u)
    ensures Keyed(SetName(u, data).1)
    ensures Consistent(u) ==> Consistent(SetName(u, data).1)
  {
    if SetName(u, data).0 == Some(0) {
      RenameAligns(u, data);
    }
    if Consistent(u) {
      StepKeeps(u, NameCommand(data));
    }
  }

  /** A rename to a free name touches one slot's name and no other slot. */
  lemma RenameIsLocal(u: Users, data: seq<byte>, j: nat)
    requires Consistent(u) && data != [] && !NameTaken(u, NameCommand(data)) && j < |u.auth|
    ensures var u' := SetName(u, data).1;
      && |u'.auth| == |u.auth|
      && u'.auth[j] == (if data[0] == j + 1 then (Strip(data[1..]), u.auth[j].1) else u.auth[j])
  {
    if 0 < data[0] <= |u.auth| {
      var i: nat, name := data[0] - 1, Strip(data[1..]);
      assert !Collides(Keys(u.auth), i, name);
      RenameKeepsOthers(u.auth, i, name);
    }
  }

  /** A password command touches no table but `auth`, and there at most the password of its own slot. */
  lemma PasswordIsLocal(u: Users, data: seq<byte>, j: nat)
    requires Consistent(u) && data != [] && j < |u.auth|
    ensures var u' := SetPassword(u, data).1;
      && u'.priv == u.priv && u'.channel == u.channel && |u'.auth| == |u.auth|
      && u'.auth[j].0 == u.auth[j].0
      && (Slot(|u.auth|, data[0] % 0x40) != Some(j) ==> u'.auth[j] == u.auth[j] && u'.active[j] == u.active[j])
  {
  }

  function Run(u: Users, cs: seq<Command>): (r: Users)
    requires Consistent(u)
    ensures Consistent(r)
    decreases |cs|
  {
    if cs == [] then u
    else
      StepKeeps(u, cs[0]);
      Run(Step(u, cs[0]), cs[1..])
  }

  predicate SomeNameTaken(u: Users, cs: seq<Command>)
    requires Consistent(u)
    decreases |cs|
  {
    cs != [] && (NameTaken(u, cs[0]) || (StepKeeps(u, cs[0]); SomeNameTaken(Step(u, cs[0]), cs[1..])))
  }

  /** Over every run the tables stay consistent; the user count survives if and only if no rename took
      another user's name, and then no slot's privilege or channel access has changed. */
  lemma {:induction false} RunKeepsUsers(u: Users, cs: seq<Command>)
    requires Consistent(u)
    ensures |Run(u, cs).auth| <= |u.auth|
    ensures |Run(u, cs).auth| == |u.auth| <==> !SomeNameTaken(u, cs)
    ensures !SomeNameTaken(u, cs) ==>
      Values(Run(u, cs).priv) == Values(u.priv) && Values(Run(u, cs).channel) == Values(u.channel)
    decreases |cs|
  {
    if cs != [] {
      StepKeeps(u, cs[0]);
      RunKeepsUsers(Step(u, cs[0]), cs[1..]);
    }
  }

  predicate DistinctBut(ks: seq<Name>, lo: nat, hi: nat) {
    forall p, q :: 0 <= p < q < |ks| && !(p == lo && q == hi) ==> ks[p] != ks[q]
  }

  /** Items with one repeated key: it keeps its first place and takes its last value, and what stands behind
      the second place moves up. */
  lemma {:induction false} CollapsePair<V>(items: seq<(Name, V)>, lo: nat, hi: nat)
    requires lo < hi < |items| && items[lo].0 == items[hi].0 && DistinctBut(Keys(items), lo, hi)
    ensures Collapse(items) == items[..hi][lo := items[hi]] + items[hi + 1..]
    decreases |items|
  {
    var n := |items| - 1;
    var init := items[..n];
    assert Collapse(items) == Put(Collapse(init), items[n].0, items[n].1);
    hide Collapse, Put;
    if n == hi {
      InitDistinct(items, lo);
      CollapseDistinct(init);
      PutAt(init, lo, items[hi].1);
      hide Keys, Distinct, DistinctBut;
      assert items[hi + 1..] == [];
    } else {
      InitDistinctBut(items, lo, hi);
      CollapsePair(init, lo, hi);
      hide Keys, DistinctBut;
      PutBehind(items, lo, hi);
    }
  }

  lemma InitDistinct<V>(items: seq<(Name, V)>, lo: nat)
    requires lo < |items| - 1 && DistinctBut(Keys(items), lo, |items| - 1)
    ensures Distinct(Keys(items[..|items| - 1]))
  {
  }

  lemma InitDistinctBut<V>(items: seq<(Name, V)>, lo: nat, hi: nat)
    requires lo < hi < |items| - 1 && DistinctBut(Keys(items), lo, hi)
    ensures DistinctBut(Keys(items[..|items| - 1]), lo, hi)
  {
  }

  lemma PutBehind<V>(items: seq<(Name, V)>, lo: nat, hi: nat)
    requires lo < hi < |items| - 1 && items[lo].0 == items[hi].0 && DistinctBut(Keys(items), lo, hi)
    ensures var n := |items| - 1;
      var init := items[..n];
      Put(init[..hi][lo := init[hi]] + init[hi + 1..], items[n].0, items[n].1)
      == items[..hi][lo := items[hi]] + items[hi + 1..]
  {
    var n := |items| - 1;
    var init := items[..n];
    var t := init[..hi][lo := init[hi]] + init[hi + 1..];
    forall p | 0 <= p < |t| ensures Keys(t)[p] != items[n].0 {
      assert t[p].0 == Keys(items)[if p < hi then p else p + 1];
    }
    hide *;
    PutNew(t, items[n].0, items[n].1);
    MovedUp(items, lo, hi);
  }

  lemma MovedUp<T>(s: seq<T>, lo: nat, hi: nat)
    requires lo < hi < |s| - 1
    ensures var init := s[..|s| - 1];
      init[..hi][lo := init[hi]] + init[hi + 1..] + [s[|s| - 1]] == s[..hi][lo := s[hi]] + s[hi + 1..]
  {
    var init := s[..|s| - 1];
    assert init[..hi] == s[..hi] && init[hi + 1..] + [s[|s| - 1]] == s[hi + 1..];
  }

  lemma PutAt<V>(t: Table<V>, lo: nat, v: V)
    requires lo < |t| && Distinct(Keys(t))
    ensures Put(t, t[lo].0, v) == t[lo := (t[lo].0, v)]
  {
    var ks := Keys(t);
    assert ks[IndexOf(ks, ks[lo])] == ks[lo];
  }

  lemma PutNew<V>(t: Table<V>, k: Name, v: V)
    requires forall p :: 0 <= p < |t| ==> Keys(t)[p] != k
    ensures Put(t, k, v) == t + [(k, v)]
  {
  }

  /** A rename of slot `i` to the name of slot `j`: the merged user stands at the earlier of the two places
      with the values of the later, and the users behind the later place move up by one. */
  lemma RenameMerges<V>(t: Table<V>, i: nat, j: nat, name: Name)
    requires i < |t| && j < |t| && i != j && Distinct(Keys(t)) && Keys(t)[j] == name
    ensures var lo, hi := Least(i, j), Greatest(i, j);
      Renamed(t, i, name) == t[..hi][lo := (name, t[hi].1)] + t[hi + 1..]
  {
    var lo: nat, hi: nat := Least(i, j), Greatest(i, j);
    var items := Retagged(t, i, name);
    assert Keys(items) == Keys(t)[i := name];
    CollapsePair(items, lo, hi);
    assert items[..hi][lo := items[hi]] == t[..hi][lo := (name, t[hi].1)];
    assert items[hi + 1..] == t[hi + 1..];
  }

  /** Whether user `k` is enabled. */
  predicate Enabled(u: Users, k: Name)
    requires Consistent(u) && k in Keys(u.auth)
  {
    u.active[IndexOf(Keys(u.auth), k)]
  }

  lemma IndexOfAt(ks: seq<Name>, p: nat)
    requires Distinct(ks) && p < |ks|
    ensures IndexOf(ks, ks[p]) == p
  {
  }

  /** Where the users of a table stand when those at `lo` and `hi` have been merged. */
  ghost predicate Merged(ks: seq<Name>, ks': seq<Name>, lo: nat, hi: nat, name: Name) {
    && lo < hi < |ks| && |ks'| == |ks| - 1 && ks'[lo] == name
    && forall p :: 0 <= p < |ks| && p != lo && p != hi ==> ks'[if p < hi then p else p - 1] == ks[p]
  }

  lemma MergedKeys<V>(t: Table<V>, t': Table<V>, lo: nat, hi: nat, name: Name)
    requires lo < hi < |t| && t' == t[..hi][lo := (name, t[hi].1)] + t[hi + 1..]
    ensures Merged(Keys(t), Keys(t'), lo, hi, name)
  {
  }

  lemma EnabledAt(u: Users, p: nat)
    requires Consistent(u) && p < |u.auth|
    ensures Keys(u.auth)[p] in Keys(u.auth) && Enabled(u, Keys(u.auth)[p]) == u.active[p]
  {
    IndexOfAt(Keys(u.auth), p);
  }

  /** The command renames slot `i` to the name of slot `j`. */
  predicate Renames(u: Users, data: seq<byte>, i: nat, j: nat) {
    data != [] && data[0] as nat == i + 1 && i < |u.auth| && j < |u.auth| && i != j
    && Keys(u.auth)[j] == Strip(data[1..])
  }

  lemma RebuiltRenamed<V>(t: Table<V>, i: nat, name: Name)
    requires i < |t|
    ensures Rebuilt(t, i + 1, name) == Renamed(t, i, name)
  {
  }

  lemma SameSizes(u: Users)
    requires Consistent(u)
    ensures Keyed(u) && Distinct(Keys(u.auth)) && |u.priv| == |u.auth| == |u.channel|
    ensures Keys(u.priv) == Keys(u.auth) == Keys(u.channel)
  {
    assert |Keys(u.priv)| == |u.priv| && |Keys(u.channel)| == |u.channel|;
  }

  lemma RenamesSlot(u: Users, data: seq<byte>, i: nat, j: nat)
    requires Renames(u, data, i, j)
    ensures i < |u.auth| && j < |u.auth| && i != j && data != [] && data[0] as nat == i + 1
    ensures Slot(|u.auth|, data[0]) != None && Keys(u.auth)[j] == Strip(data[1..])
  {
  }

  lemma CollisionTables(u: Users, data: seq<byte>, i: nat, j: nat)
    requires Consistent(u) && Renames(u, data, i, j)
    ensures i < |u.auth| && j < |u.auth| && |u.priv| == |u.auth| == |u.channel|
    ensures var u', name := SetName(u, data).1, Keys(u.auth)[j];
      && Consistent(u') && u'.active == u.active && u'.auth == Renamed(u.auth, i, name)
      && u'.priv == Renamed(u.priv, i, name) && u'.channel == Renamed(u.channel, i, name)
  {
    var name := Keys(u.auth)[j];
    hide *;
    SameSizes(u);
    RenamesSlot(u, data, i, j);
    SetNameConsistent(u, data);
    NameKeepsKeyed(u, data);
    RebuiltRenamed(u.auth, i, name);
    RebuiltRenamed(u.priv, i, name);
    RebuiltRenamed(u.channel, i, name);
  }

  lemma RenameMergesKeys<V>(t: Table<V>, i: nat, j: nat, name: Name)
    requires i < |t| && j < |t| && i != j && Distinct(Keys(t)) && Keys(t)[j] == name
    ensures Merged(Keys(t), Keys(Renamed(t, i, name)), Least(i, j), Greatest(i, j), name)
  {
    RenameMerges(t, i, j, name);
    hide Renamed, Keys, Merged, Distinct;
    MergedKeys(t, Renamed(t, i, name), Least(i, j), Greatest(i, j), name);
  }

  lemma FlagMoves(u: Users, u': Users, lo: nat, hi: nat, name: Name, p: nat)
    requires Consistent(u) && Consistent(u') && u'.active == u.active && p < |u.auth|
    requires Merged(Keys(u.auth), Keys(u'.auth), lo, hi, name) && p != lo && p != hi
    ensures var k := Keys(u.auth)[p];
      && k in Keys(u.auth) && k in Keys(u'.auth)
      && (Enabled(u', k) == Enabled(u, k) <==> p < hi || u.active[p] == u.active[p - 1])
  {
    hide Enabled;
    EnabledAt(u, p);
    EnabledAt(u', if p < hi then p else p - 1);
  }

  lemma FlagStays(u: Users, u': Users, lo: nat, hi: nat, name: Name)
    requires Consistent(u) && Consistent(u') && u'.active == u.active
    requires Merged(Keys(u.auth), Keys(u'.auth), lo, hi, name)
    ensures name in Keys(u'.auth) && Enabled(u', name) == u.active[lo]
  {
    hide Enabled;
    EnabledAt(u', lo);
  }

  /** The flags are kept by place and a rename does not move them. After one onto a taken name every user
      behind the later of the two places finds itself at the flag of the user before it, and so keeps its own
      if and only if the two are equal; those before keep theirs. */
  lemma FlagAfterCollision(u: Users, data: seq<byte>, i: nat, j: nat, p: nat)
    requires Consistent(u) && Renames(u, data, i, j) && p < |u.auth| && p != i && p != j
    ensures var k, u' := Keys(u.auth)[p], SetName(u, data).1;
      && Consistent(u') && k in Keys(u.auth) && k in Keys(u'.auth)
      && (Enabled(u', k) == Enabled(u, k) <==> p < i || p < j || u.active[p] == u.active[p - 1])
  {
    CollisionTables(u, data, i, j);
    var name := Keys(u.auth)[j];
    RenameMergesKeys(u.auth, i, j, name);
    hide SetName, Renamed, Strip, Merged, Enabled, Keys;
    FlagMoves(u, SetName(u, data).1, Least(i, j), Greatest(i, j), name, p);
  }

  /** The merged user gets the flag of the earlier of the two places. */
  lemma FlagOfMerged(u: Users, data: seq<byte>, i: nat, j: nat)
    requires Consistent(u) && Renames(u, data, i, j)
    ensures var name, u' := Keys(u.auth)[j], SetName(u, data).1;
      Consistent(u') && name in Keys(u'.auth) && Enabled(u', name) == u.active[if i < j then i else j]
  {
    CollisionTables(u, data, i, j);
    var name := Keys(u.auth)[j];
    RenameMergesKeys(u.auth, i, j, name);
    hide SetName, Renamed, Strip, Merged, Enabled, Keys;
    FlagStays(u, SetName(u, data).1, Least(i, j), Greatest(i, j), name);
  }

  // ----- places and flags over whole runs

  /** The place before a command of the user who stands at `q` after it: a rename onto a taken name puts the
      later of the two users at the earlier place. */
  function StepOrigin(u: Users, c: Command, q: nat): nat
    requires Consistent(u)
  {
    if !NameTaken(u, c) then q
    else
      var i: nat, j := c.data[0] - 1, IndexOf(Keys(u.auth), Strip(c.data[1..]));
      MergeOrigin(Least(i, j), Greatest(i, j), q)
  }

  function MergeOrigin(lo: nat, hi: nat, q: nat): nat {
    if q == lo then hi else if q < hi then q else q + 1
  }

  /** The first place of the user who stands at `q` after a run. */
  function Origin(u: Users, cs: seq<Command>, q: nat): nat
    requires Consistent(u)
    decreases |cs|
  {
    if cs == [] then q
    else
      StepKeeps(u, cs[0]);
      StepOrigin(u, cs[0], Origin(Step(u, cs[0]), cs[1..], q))
  }

  /** The command disables or enables whoever stands at `q`. */
  predicate SetsFlag(u: Users, c: Command, q: nat) {
    c.PasswordCommand? && |c.data| >= 2 && c.data[1] % 4 < 2 && Slot(|u.auth|, c.data[0] % 0x40) == Some(q)
  }

  predicate SomeFlagSet(u: Users, cs: seq<Command>, q: nat)
    requires Consistent(u)
    decreases |cs|
  {
    cs != [] && (SetsFlag(u, cs[0], q) || (StepKeeps(u, cs[0]); SomeFlagSet(Step(u, cs[0]), cs[1..], q)))
  }

  /** What the users of a table are allowed stays with them. */
  predicate SameAt(u: Users, p: nat, u': Users, q: nat) {
    && p < |u.priv| && p < |u.channel| && q < |u'.priv| && q < |u'.channel|
    && u'.priv[q].1 == u.priv[p].1 && u'.channel[q].1 == u.channel[p].1
  }

  /** A rename onto a taken name, with the place of that name. */
  lemma TakenBy(u: Users, data: seq<byte>) returns (i: nat, j: nat)
    requires Consistent(u) && NameTaken(u, NameCommand(data))
    ensures Renames(u, data, i, j) && i == data[0] - 1 && j == IndexOf(Keys(u.auth), Strip(data[1..]))
  {
    var ks, name := Keys(u.auth), Strip(data[1..]);
    i := data[0] - 1;
    var p :| 0 <= p < |ks| && p != i && ks[p] == name;
    IndexOfAt(ks, p);
    j := p;
  }

  lemma MergedValue<V>(t: Table<V>, i: nat, j: nat, name: Name, q: nat)
    requires i < |t| && j < |t| && i != j && Distinct(Keys(t)) && Keys(t)[j] == name && q < |t| - 1
    ensures |Renamed(t, i, name)| == |t| - 1 && MergeOrigin(Least(i, j), Greatest(i, j), q) < |t|
    ensures Renamed(t, i, name)[q].1 == t[MergeOrigin(Least(i, j), Greatest(i, j), q)].1
  {
    RenameMerges(t, i, j, name);
  }

  lemma SameWhen(u: Users, p: nat, u': Users, q: nat)
    requires p < |u.priv| && q < |u'.priv| && u'.priv[q].1 == u.priv[p].1
    requires p < |u.channel| && q < |u'.channel| && u'.channel[q].1 == u.channel[p].1
    ensures SameAt(u, p, u', q)
  {
  }

  lemma CollisionMoves(u: Users, data: seq<byte>, i: nat, j: nat, q: nat)
    requires Consistent(u) && Renames(u, data, i, j) && q < |u.auth| - 1
    ensures var u' := SetName(u, data).1;
      |u'.auth| == |u.auth| - 1 && SameAt(u, MergeOrigin(Least(i, j), Greatest(i, j), q), u', q)
  {
    var name, origin := Keys(u.auth)[j], MergeOrigin(Least(i, j), Greatest(i, j), q);
    hide *;
    CollisionTables(u, data, i, j);
    SameSizes(u);
    RenamesSlot(u, data, i, j);
    MergedValue(u.auth, i, j, name, q);
    MergedValue(u.priv, i, j, name, q);
    MergedValue(u.channel, i, j, name, q);
    SameWhen(u, origin, SetName(u, data).1, q);
  }

  lemma StepMoves(u: Users, c: Command, q: nat)
    requires Consistent(u) && q < |Step(u, c).auth|
    ensures q <= StepOrigin(u, c, q) < |u.auth| && SameAt(u, StepOrigin(u, c, q), Step(u, c), q)
  {
    StepKeeps(u, c);
    if NameTaken(u, c) {
      var i, j := TakenBy(u, c.data);
      assert |Step(u, c).auth| <= |u.auth| - 1;
      CollisionMoves(u, c.data, i, j, q);
    } else {
      KeptValues(u, Step(u, c), q);
    }
  }

  lemma KeptValues(u: Users, u': Users, q: nat)
    requires Consistent(u) && Consistent(u') && q < |u.auth| == |u'.auth|
    requires Values(u'.priv) == Values(u.priv) && Values(u'.channel) == Values(u.channel)
    ensures SameAt(u, q, u', q)
  {
    assert |u.priv| == |Keys(u.priv)| && |u'.priv| == |Keys(u'.priv)|;
    assert Values(u'.priv)[q] == Values(u.priv)[q] && Values(u'.channel)[q] == Values(u.channel)[q];
  }

  lemma StepKeepsFlag(u: Users, c: Command, q: nat)
    requires Consistent(u) && q < |u.active| && !SetsFlag(u, c, q)
    ensures |Step(u, c).active| == |u.active| && Step(u, c).active[q] == u.active[q]
  {
    if c.NameCommand? {
      SetNameConsistent(u, c.data);
    }
  }

  lemma SameTwice(u: Users, p: nat, v: Users, q: nat, w: Users, r: nat)
    requires SameAt(u, p, v, q) && SameAt(v, q, w, r)
    ensures SameAt(u, p, w, r)
  {
  }

  /** After any run the user at place `q` has the privilege and the channel access of the user who first
      stood at its origin. */
  lemma {:induction false} PlaceAfterRun(u: Users, cs: seq<Command>, q: nat)
    requires Consistent(u) && q < |Run(u, cs).auth|
    ensures q <= Origin(u, cs, q) < |u.auth| && SameAt(u, Origin(u, cs, q), Run(u, cs), q)
    decreases |cs|
  {
    if cs != [] {
      StepKeeps(u, cs[0]);
      var u', rest := Step(u, cs[0]), cs[1..];
      var between := Origin(u', rest, q);
      assert Run(u, cs) == Run(u', rest) && Origin(u, cs, q) == StepOrigin(u, cs[0], between);
      hide Run, Step, Origin, StepOrigin, SameAt, Consistent;
      PlaceAfterRun(u', rest, q);
      StepMoves(u, cs[0], between);
      SameTwice(u, Origin(u, cs, q), u', between, Run(u', rest), q);
    } else {
      assert |u.priv| == |Keys(u.priv)| && |u.channel| == |Keys(u.channel)|;
    }
  }

  /** No two of them have the same origin. */
  lemma {:induction false} OriginsDiffer(u: Users, cs: seq<Command>, p: nat, q: nat)
    requires Consistent(u) && p < |Run(u, cs).auth| && q < |Run(u, cs).auth| && p != q
    ensures Origin(u, cs, p) != Origin(u, cs, q)
    decreases |cs|
  {
    if cs != [] {
      StepKeeps(u, cs[0]);
      var u', rest := Step(u, cs[0]), cs[1..];
      assert Run(u, cs) == Run(u', rest);
      hide Run, Step, Consistent;
      OriginsDiffer(u', rest, p, q);
      StepOriginsDiffer(u, cs[0], Origin(u', rest, p), Origin(u', rest, q));
    }
  }

  lemma StepOriginsDiffer(u: Users, c: Command, p: nat, q: nat)
    requires Consistent(u) && p != q
    ensures StepOrigin(u, c, p) != StepOrigin(u, c, q)
  {
    if NameTaken(u, c) {
      var i, j := TakenBy(u, c.data);
      assert i != j;
    }
  }

  /** A place keeps its flag unless a command sets it. */
  lemma {:induction false} FlagOfPlace(u: Users, cs: seq<Command>, q: nat)
    requires Consistent(u) && q < |u.active| && !SomeFlagSet(u, cs, q)
    ensures |Run(u, cs).active| == |u.active| && Run(u, cs).active[q] == u.active[q]
    decreases |cs|
  {
    if cs != [] {
      StepKeeps(u, cs[0]);
      StepKeepsFlag(u, cs[0], q);
      var u', rest := Step(u, cs[0]), cs[1..];
      assert Run(u, cs) == Run(u', rest) && !SomeFlagSet(u', rest, q);
      hide Run, Step, Consistent, SomeFlagSet;
      FlagOfPlace(u', rest, q);
    }
  }

  /** So over any run that sets no flag at the place where a user ends, that user is enabled afterwards
      exactly if the place was enabled at first, and keeps its own flag if and only if the place it started
      from had an equal one. */
  lemma FlagAfterRun(u: Users, cs: seq<Command>, q: nat)
    requires Consistent(u) && q < |Run(u, cs).auth| && !SomeFlagSet(u, cs, q)
    ensures var r, o := Run(u, cs), Origin(u, cs, q);
      && q <= o < |u.auth| && SameAt(u, o, r, q)
      && Keys(r.auth)[q] in Keys(r.auth) && Keys(u.auth)[o] in Keys(u.auth)
      && Enabled(r, Keys(r.auth)[q]) == u.active[q]
      && (Enabled(r, Keys(r.auth)[q]) == Enabled(u, Keys(u.auth)[o]) <==> u.active[q] == u.active[o])
  {
    PlaceAfterRun(u, cs, q);
    FlagOfPlace(u, cs, q);
    hide Enabled, Run, Origin, SameAt, SomeFlagSet;
    EnabledAt(Run(u, cs), q);
    EnabledAt(u, Origin(u, cs, q));
  }

  /** The first two of three users are enabled. */
  function ThreeUsers(): Users {
    Users([([97], [1]), ([98], [2]), ([99], [3])], [([97], 4), ([98], 3), ([99], 2)],
          [([97], []), ([98], []), ([99], [])], [true, true, false])
  }

  /** Renaming the first to the name of the second enables the third. */
  lemma CollisionEnablesThird()
    ensures var u, data: seq<byte>, c: Name := ThreeUsers(), [1, 98], [99];
      && Consistent(u) && Consistent(SetName(u, data).1)
      && c in Keys(u.auth) && !Enabled(u, c)
      && c in Keys(SetName(u, data).1.auth) && Enabled(SetName(u, data).1, c)
  {
    var u, data: seq<byte>, c: Name := ThreeUsers(), [1, 98], [99];
    ThreeKeys();
    StripOne(98);
    assert data[1..] == [98];
    assert Renames(u, data, 0, 1);
    hide SetName, Enabled, Consistent, ThreeUsers, Strip;
    EnabledAt(u, 2);
    FlagAfterCollision(u, data, 0, 1, 2);
  }

  lemma ThreeKeys()
    ensures var u := ThreeUsers();
      && Consistent(u) && |u.auth| == 3 && u.active == [true, true, false]
      && Keys(u.auth)[1] == [98] && Keys(u.auth)[2] == [99]
  {
    var u, a: Name, b: Name, c: Name := ThreeUsers(), [97], [98], [99];
    assert a[0] != b[0] && a[0] != c[0] && b[0] != c[0];
    assert Keys(u.auth) == [a, b, c] && Keys(u.priv) == [a, b, c] && Keys(u.channel) == [a, b, c];
  }

  function TwoUsers(): Users {
    Users([([97], [1]), ([98], [2])], [([97], 4), ([98], 3)], [([97], []), ([98], [])], [true, true])
  }

  /** Renaming the first of two users to the name of the second leaves one. */
  lemma RenameLosesUser()
    ensures Consistent(TwoUsers()) && NameTaken(TwoUsers(), NameCommand([1, 98]))
    ensures Step(TwoUsers(), NameCommand([1, 98])).auth == [([98], [2])]
    ensures Step(TwoUsers(), NameCommand([1, 98])).priv == [([98], 3)]
  {
    var a: Name, b: Name, u, data: seq<byte> := [97], [98], TwoUsers(), [1, 98];
    assert Keys(u.auth) == [a, b] && Keys(u.priv) == [a, b] && Keys(u.channel) == [a, b];
    assert a[0] != b[0];
    StripOne(98);
    assert data[1..] == b;
    assert Keys(u.auth)[1] == b;
    assert Collides(Keys(u.auth), 0, b);
    SetNameConsistent(u, data);
    var v: Name, w: Name := [1], [2];
    PairRenamed(a, b, v, w);
    PairRenamed<nat>(a, b, 4, 3);
    hide Renamed, SetName, Collapse, Keys, IndexOf;
    assert Step(u, NameCommand(data)) == SetName(u, data).1;
  }

  lemma PairRenamed<V>(a: Name, b: Name, v: V, w: V)
    ensures Renamed([(a, v), (b, w)], 0, b) == [(b, w)]
  {
    CollapseSame(b, v, w);
    assert Retagged([(a, v), (b, w)], 0, b) == [(b, v), (b, w)];
  }

  lemma StripOne(x: byte)
    requires x != 0
    ensures Strip([x]) == [x]
  {
  }

  lemma CollapseSame<V>(k: Name, v: V, w: V)
    ensures Collapse([(k, v), (k, w)]) == [(k, w)]
  {
    var items := [(k, v), (k, w)];
    assert items[..1] == [(k, v)] && [(k, v)][..0] == [];
    assert Collapse([(k, v)]) == Put(Collapse([]), k, v) == [(k, v)];
    assert Keys([(k, v)]) == [k] && IndexOf([k], k) == 0;
    assert [(k, v)][0 := (k, w)] == [(k, w)];
  }

  // ----- what a password is worth

  /** The command sets the password of slot `j`. */
  predicate SetsPassword(count: nat, c: Command, j: nat) {
    c.PasswordCommand? && |c.data| >= 2 && c.data[1] % 4 == 2 && Slot(count, c.data[0] % 0x40) == Some(j)
  }

  lemma StepKeepsPassword(u: Users, c: Command, j: nat)
    requires Consistent(u) && j < |u.auth| && !NameTaken(u, c) && !SetsPassword(|u.auth|, c, j)
    ensures |Step(u, c).auth| == |u.auth| && Step(u, c).auth[j].1 == u.auth[j].1
  {
    if c.data != [] {
      if c.NameCommand? {
        RenameIsLocal(u, c.data, j);
      } else {
        PasswordIsLocal(u, c.data, j);
      }
    }
  }

  lemma {:induction false} RunKeepsPassword(u: Users, cs: seq<Command>, j: nat)
    requires Consistent(u) && j < |u.auth| && !SomeNameTaken(u, cs)
    requires forall c :: c in cs ==> !SetsPassword(|u.auth|, c, j)
    ensures |Run(u, cs).auth| == |u.auth| && Run(u, cs).auth[j].1 == u.auth[j].1
    decreases |cs|
  {
    if cs != [] {
      StepKeeps(u, cs[0]);
      StepKeepsPassword(u, cs[0], j);
      RunKeepsPassword(Step(u, cs[0]), cs[1..], j);
    }
  }

  lemma SetPasswordStores(u: Users, data: seq<byte>, j: nat)
    requires Consistent(u) && SetsPassword(|u.auth|, PasswordCommand(data), j)
    ensures var u' := SetPassword(u, data).1;
      j < |u'.auth| == |u.auth| && u'.auth[j].1 == Strip(PasswordOf(data))
  {
  }

  /** However long after a password was set, and whatever was renamed, enabled, disabled or set for others
      in between, testing that slot fails if and only if the password tested is another one. */
  lemma SetThenTest(u: Users, setting: seq<byte>, cs: seq<Command>, testing: seq<byte>, j: nat)
    requires Consistent(u) && SetsPassword(|u.auth|, PasswordCommand(setting), j)
    requires |testing| >= 2 && testing[1] % 4 == 3 && Slot(|u.auth|, testing[0] % 0x40) == Some(j)
    requires forall c :: c in cs ==> !SetsPassword(|u.auth|, c, j)
    requires !SomeNameTaken(SetPassword(u, setting).1, cs)
    ensures var (code, after) := SetPassword(Run(SetPassword(u, setting).1, cs), testing);
      && (code == Some(0x80) <==> Strip(PasswordOf(testing)) != Strip(PasswordOf(setting)))
      && after == Run(SetPassword(u, setting).1, cs)
  {
    SetPasswordStores(u, setting, j);
    RunKeepsPassword(SetPassword(u, setting).1, cs, j);
  }

  // ----- the server object

  /** What the rename loop puts into a copy of `t`, one after the other. */
  function Items<V>(t: Table<V>, userId: nat, name: Name): (items: seq<(Name, V)>)
    requires userId <= |t|
    ensures |items| == |t|
  {
    if userId == 0 then t else Retagged(t, userId - 1, name)
  }

  lemma ItemAt<V>(t: Table<V>, ks: seq<Name>, userId: nat, name: Name, i: nat)
    requires Covers(t, ks) && userId <= |ks| && i < |ks|
    ensures ks[i] in Keys(t)
    ensures Items(Follow(t, ks), userId, name)[i]
         == (if i + 1 == userId then name else ks[i], Lookup(t, ks[i]))
  {
  }

  lemma CollapseStep<V>(items: seq<(Name, V)>, i: nat)
    requires i < |items|
    ensures Collapse(items[..i + 1]) == Put(Collapse(items[..i]), items[i].0, items[i].1)
  {
    assert items[..i + 1][..i] == items[..i];
  }

  lemma CollapseAll<V>(t: Table<V>, userId: nat, name: Name)
    requires Distinct(Keys(t)) && userId <= |t|
    ensures Collapse(Items(t, userId, name)) == Rebuilt(t, userId, name)
  {
    if userId == 0 {
      CollapseDistinct(t);
    }
  }

  /** The copy of `t` after `index` rounds, if `t` has every key. */
  ghost predicate Copied<V>(copy: Table<V>, t: Table<V>, ks: seq<Name>, userId: nat, name: Name, index: nat)
    requires userId <= |ks| && index <= |ks|
  {
    Covers(t, ks) ==> copy == Collapse(Items(Follow(t, ks), userId, name)[..index])
  }

  predicate CoversFirst<V>(t: Table<V>, ks: seq<Name>, n: nat)
    requires n <= |ks|
  {
    forall i :: 0 <= i < n ==> ks[i] in Keys(t)
  }

  lemma CoversOneMore<V>(t: Table<V>, ks: seq<Name>, i: nat)
    requires i < |ks| && CoversFirst(t, ks, i)
    ensures CoversFirst(t, ks, i + 1) <==> ks[i] in Keys(t)
    ensures ks[i] !in Keys(t) ==> !Covers(t, ks)
    ensures i + 1 == |ks| && ks[i] in Keys(t) ==> Covers(t, ks)
  {
  }

  lemma CopiedStep<V>(copy: Table<V>, t: Table<V>, ks: seq<Name>, userId: nat, name: Name, index: nat)
    requires userId <= |ks| && index < |ks| && Copied(copy, t, ks, userId, name, index) && ks[index] in Keys(t)
    ensures Copied(Put(copy, if index + 1 == userId then name else ks[index], Lookup(t, ks[index])),
                   t, ks, userId, name, index + 1)
  {
    if Covers(t, ks) {
      ItemAt(t, ks, userId, name, index);
      CollapseStep(Items(Follow(t, ks), userId, name), index);
    }
  }

  lemma CopiedAll<V>(copy: Table<V>, t: Table<V>, ks: seq<Name>, userId: nat, name: Name)
    requires userId <= |ks| && Distinct(ks) && Covers(t, ks)
    ensures Copied(copy, t, ks, userId, name, |ks|) ==> copy == Rebuilt(Follow(t, ks), userId, name)
  {
    var items := Items(Follow(t, ks), userId, name);
    assert items[..|ks|] == items;
    CollapseAll(Follow(t, ks), userId, name);
  }

  /** One round of the rename loop, for one of the dictionaries; None is a KeyError. */
  method CopyItem<V>(copy: Table<V>, t: Table<V>, k: Name, oldName: Name, userId: nat, userName: Name, index: nat,
                     ghost ks: seq<Name>)
    returns (next: Option<Table<V>>)
    requires userId <= |ks| && index < |ks| && k == ks[index] && (index == userId - 1 ==> oldName == k)
    requires Copied(copy, t, ks, userId, userName, index)
    ensures next.Some? <==> k in Keys(t)
    ensures next.Some? ==> Copied(next.value, t, ks, userId, userName, index + 1)
  {
    if k !in Keys(t) {
      return None;
    }
    CopiedStep(copy, t, ks, userId, userName, index);
    if index == userId - 1 {
      next := Some(Put(copy, userName, Lookup(t, oldName)));
    } else {
      next := Some(Put(copy, k, Lookup(t, k)));
    }
  }

  /** Three tables, or their copies. */
  type Tables = (Table<Name>, Table<nat>, Table<Name>)

  /** The copies after `index` rounds, each of which found its key in the second and third table. */
  ghost predicate AllCopied(copies: Tables, ts: Tables, ks: seq<Name>, userId: nat, name: Name, index: nat)
    requires userId <= |ks| && index <= |ks|
  {
    && Copied(copies.0, ts.0, ks, userId, name, index) && Copied(copies.1, ts.1, ks, userId, name, index)
    && Copied(copies.2, ts.2, ks, userId, name, index)
    && CoversFirst(ts.1, ks, index) && CoversFirst(ts.2, ks, index)
  }

  /** One round of the rename loop. */
  method CopyRound(copies: Tables, ts: Tables, oldName: Name, userId: nat, userName: Name, index: nat,
                   ghost ks: seq<Name>)
    returns (next: Option<Tables>)
    requires Keys(ts.0) == ks && userId <= |ks| && index < |ks| && (index == userId - 1 ==> oldName == ks[index])
    requires AllCopied(copies, ts, ks, userId, userName, index)
    ensures next.Some? ==> AllCopied(next.value, ts, ks, userId, userName, index + 1)
    ensures next == None ==> !Covers(ts.1, ks) || !Covers(ts.2, ks)
  {
    var k := ts.0[index].0;
    CoversOneMore(ts.1, ks, index);
    CoversOneMore(ts.2, ks, index);
    hide Copied, Covers, CoversFirst;
    var auth := CopyItem(copies.0, ts.0, k, oldName, userId, userName, index, ks);
    var priv := CopyItem(copies.1, ts.1, k, oldName, userId, userName, index, ks);
    if priv == None {
      return None;
    }
    var channel := CopyItem(copies.2, ts.2, k, oldName, userId, userName, index, ks);
    if channel == None {
      return None;
    }
    next := Some((auth.value, priv.value, channel.value));
  }

  lemma AllCopiedStart(ts: Tables, ks: seq<Name>, userId: nat, name: Name)
    requires userId <= |ks|
    ensures AllCopied(([], [], []), ts, ks, userId, name, 0)
  {
  }

  lemma AllCopiedEnd(copies: Tables, ts: Tables, ks: seq<Name>, userId: nat, name: Name)
    requires userId <= |ks| && Distinct(ks) && Keys(ts.0) == ks
    ensures AllCopied(copies, ts, ks, userId, name, |ks|) ==>
      && Covers(ts.1, ks) && Covers(ts.2, ks)
      && copies == (Rebuilt(ts.0, userId, name), Rebuilt(Follow(ts.1, ks), userId, name),
                    Rebuilt(Follow(ts.2, ks), userId, name))
  {
    if AllCopied(copies, ts, ks, userId, name, |ks|) {
      FollowSelf(ts.0, ks);
      CopiedAll(copies.0, ts.0, ks, userId, name);
      CopiedAll(copies.1, ts.1, ks, userId, name);
      CopiedAll(copies.2, ts.2, ks, userId, name);
    }
  }

  /** The loop that recreates the three dictionaries with one key replaced. */
  method RebuildTables(ts: Tables, userId: nat, userName: Name) returns (r: Option<Tables>)
    requires ts.0 != [] && userId <= |ts.0| && Distinct(Keys(ts.0))
    ensures var ks := Keys(ts.0);
      r == if !Covers(ts.1, ks) || !Covers(ts.2, ks) then None
           else Some((Rebuilt(ts.0, userId, userName), Rebuilt(Follow(ts.1, ks), userId, userName),
                      Rebuilt(Follow(ts.2, ks), userId, userName)))
  {
    ghost var ks := Keys(ts.0);
    var oldName := if userId == 0 then ts.0[|ts.0| - 1].0 else ts.0[userId - 1].0;
    var copies: Tables := ([], [], []);
    AllCopiedStart(ts, ks, userId, userName);
    hide AllCopied, Covers, Rebuilt, Follow;
    for index := 0 to |ts.0|
      invariant AllCopied(copies, ts, ks, userId, userName, index)
    {
      var next := CopyRound(copies, ts, oldName, userId, userName, index, ks);
      if next == None {
        return None;
      }
      copies := next.value;
    }
    AllCopiedEnd(copies, ts, ks, userId, userName);
    r := Some(copies);
  }

  class IpmiServer {
    var users: Users

    constructor (u: Users)
      ensures users == u
    {
      users := u;
    }

    /** The set-user-name branch of `handle_client_request`. */
    method SetUserName(data: seq<byte>) returns (code: Option<byte>)
      requires Keyed(users)
      modifies this
      ensures Keyed(users) && (old(Consistent(users)) ==> Consistent(users))
      ensures (code, users) == SetName(old(users), data)
    {
      NameKeepsKeyed(users, data);
      if data == [] {
        return None;
      }
      var userId := data[0];
      var userName := Strip(data[1..]);
      if |users.auth| == 0 || userId > |users.auth| {
        return None;
      }
      var copies := RebuildTables((users.auth, users.priv, users.channel), userId, userName);
      if copies == None {
        return None;
      }
      users := users.(auth := copies.value.0, priv := copies.value.1, channel := copies.value.2);
      code := Some(0);
    }

    /** The set-user-password branch of `handle_client_request`. */
    method SetUserPassword(data: seq<byte>) returns (code: Option<byte>)
      requires Keyed(users)
      modifies this
      ensures Keyed(users) && (old(Consistent(users)) ==> Consistent(users))
      ensures (code, users) == SetPassword(old(users), data)
    {
      if data == [] {
        return None;
      }
      var userId := data[0] % 0x40;
      var auth := users.auth;
      if |auth| == 0 || userId > |auth| {
        return None;
      }
      var slot: nat := if userId == 0 then |auth| - 1 else userId - 1;
      var userName := auth[slot].0;
      if |data| < 2 {
        return None;
      }
      var operation := data[1] % 4;
      var password := PasswordOf(data);
      LookupAt(auth, Keys(auth), slot);
      var position := IndexOf(Keys(auth), userName);
      assert position == slot;
      if operation < 2 && position >= |users.active| {
        return None;
      }
      assert slot < |users.active| ==> users.active[slot := users.active[slot]] == users.active;
      var returnCode: byte := 0;
      if operation == 0 {
        if users.active[position] {
          users := users.(active := users.active[position := false]);
        }
      } else if operation == 1 {
        if !users.active[position] {
          users := users.(active := users.active[position := true]);
        }
      } else if operation == 2 {
        if |password| != 16 && |password| != 20 {
          returnCode := 0x81;
        }
        users := users.(auth := Put(auth, userName, Strip(password)));
      } else {
        if |password| != 16 && |password| != 20 {
          returnCode := 0x81;
        }
        if Lookup(auth, userName) != Strip(password) {
          returnCode := 0x80;
        }
      }
      code := Some(returnCode);
    }
  }
}
