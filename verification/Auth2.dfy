/** `auth2.c`, `auth2-pubkey.c`: ordered authentication method lists consumed across requests. */
module Auth2 {
  import opened Basics

  /** A method that succeeded, with the device that did the work where the source reports one. */
  datatype Event = Event(name: string, device: Option<string>)

  // ----- Comma-separated lists -----

  function IndexOf(s: string, c: char): (k: nat)
    ensures k <= |s| && c !in s[..k] && (k < |s| ==> s[k] == c)
  {
    if s == [] || s[0] == c then 0 else
      var k := IndexOf(s[1..], c);
      assert s[..k + 1] == [s[0]] + s[1..][..k];
      k + 1
  }

  function Entries(s: string): (es: seq<string>)
    ensures es != []
    decreases |s|
  {
    var k := IndexOf(s, ',');
    if k == |s| then [s] else [s[..k]] + Entries(s[k + 1..])
  }

  function Join(es: seq<string>): string {
    if es == [] then "" else if |es| == 1 then es[0] else es[0] + "," + Join(es[1..])
  }

  function MethodPart(entry: string): string {
    entry[..IndexOf(entry, ':')]
  }

  lemma EntriesStep(s: string)
    ensures var k := IndexOf(s, ','); Entries(s) == [s[..k]] + if k == |s| then [] else Entries(s[k + 1..])
  {
    hide IndexOf;
    var k := IndexOf(s, ',');
    if k == |s| {
      assert s[..k] == s;
    }
  }

  lemma {:induction false} JoinEntries(s: string)
    ensures Join(Entries(s)) == s
    decreases |s|
  {
    hide IndexOf, Entries;
    var k := IndexOf(s, ',');
    EntriesStep(s);
    if k < |s| {
      JoinEntries(s[k + 1..]);
      assert Entries(s)[1..] == Entries(s[k + 1..]);
      assert s == s[..k] + "," + s[k + 1..];
    }
  }

  lemma IndexOfConcat(a: string, c: char, b: string)
    requires c !in a
    ensures IndexOf(a + b, c) == |a| + IndexOf(b, c)
  {
    if a == [] {
      assert a + b == b;
    } else {
      assert (a + b)[1..] == a[1..] + b;
      IndexOfConcat(a[1..], c, b);
    }
  }

  lemma EntriesOne(e: string)
    requires ',' !in e
    ensures Entries(e) == [e]
  {
    IndexOfConcat(e, ',', "");
    assert e + "" == e;
  }

  lemma EntriesCons(e: string, rest: string)
    requires ',' !in e
    ensures Entries(e + "," + rest) == [e] + Entries(rest)
  {
    var s := e + "," + rest;
    assert s == e + ("," + rest);
    IndexOfConcat(e, ',', "," + rest);
    assert s[..|e|] == e && s[|e| + 1..] == rest;
  }

  lemma {:induction false} EntriesJoin(es: seq<string>)
    requires es != [] && forall e <- es :: ',' !in e
    ensures Entries(Join(es)) == es
  {
    hide Entries;
    if |es| == 1 {
      EntriesOne(es[0]);
    } else {
      EntriesJoin(es[1..]);
      EntriesCons(es[0], Join(es[1..]));
    }
  }

  lemma {:induction false} EntriesHaveNoComma(s: string)
    ensures forall e <- Entries(s) :: ',' !in e
    decreases |s|
  {
    hide IndexOf, Entries;
    var k := IndexOf(s, ',');
    EntriesStep(s);
    if k < |s| {
      EntriesHaveNoComma(s[k + 1..]);
    }
  }

  /** What is left of a list after some entries is a suffix of its text. */
  lemma {:induction false} RestIsSuffix(s: string, c: nat)
    requires c <= |Entries(s)|
    ensures exists k :: 0 <= k <= |s| && Join(Entries(s)[c..]) == s[k..]
    decreases |s|
  {
    hide IndexOf, Entries;
    var k := IndexOf(s, ',');
    EntriesStep(s);
    if c == 0 {
      JoinEntries(s);
      assert Entries(s)[0..] == Entries(s) && s[0..] == s;
    } else if k == |s| {
      assert s[|s|..] == [];
    } else {
      var tail := s[k + 1..];
      RestIsSuffix(tail, c - 1);
      var j :| 0 <= j <= |tail| && Join(Entries(tail)[c - 1..]) == tail[j..];
      assert Entries(s)[c..] == Entries(tail)[c - 1..];
      assert tail[j..] == s[k + 1 + j..];
    }
  }

  // ----- Matching the head of a list -----

  datatype Match = MatchNone | MatchMethod | MatchBoth | MatchPartial

  /** `list_starts_with`: `*p` past the end of the text is the terminating NUL. */
  function ListStartsWith(methods: string, name: string, submethod: Option<string>): (m: Match)
    ensures m == MatchMethod ==> |name| <= |methods|
    ensures m == MatchBoth ==> submethod.Some? && |name| + 1 + |submethod.value| <= |methods|
  {
    if !(name <= methods) then MatchNone else
      var p := methods[|name|..];
      if p != [] && p[0] == ':' then
        if submethod.None? then MatchPartial
        else if !(submethod.value <= p[1..]) then MatchNone
        else AtEnd(p[1 + |submethod.value|..], MatchBoth)
      else AtEnd(p, MatchMethod)
  }

  function AtEnd(p: string, m: Match): Match {
    if p != [] && p[0] != ',' then MatchNone else m
  }

  /** The event is what the entry asks for. */
  predicate Satisfies(ev: Event, entry: string) {
    entry == ev.name || (ev.device.Some? && entry == ev.name + ":" + ev.device.value)
  }

  predicate PlainMethod(m: string) {
    m != "" && ',' !in m && ':' !in m
  }

  predicate PlainEvent(ev: Event) {
    PlainMethod(ev.name) && (ev.device.Some? ==> ',' !in ev.device.value)
  }

  /** A text starts with `e` and then ends or has a comma exactly when `e` is its first entry. */
  lemma FirstEntry(s: string, e: string)
    requires ',' !in e
    ensures Entries(s)[0] == e <==> e <= s && (|s| == |e| || s[|e|] == ',')
  {
    hide Entries, IndexOf;
    EntriesStep(s);
    var k := IndexOf(s, ',');
    assert Entries(s)[0] == s[..k];
    if e <= s {
      var rest := s[|e|..];
      assert s == e + rest;
      IndexOfConcat(e, ',', rest);
    }
  }

  lemma FirstEntryStarts(s: string, e: string)
    requires ',' !in e
    ensures e <= Entries(s)[0] <==> e <= s
  {
    hide Entries, IndexOf;
    EntriesStep(s);
    var k := IndexOf(s, ',');
    assert Entries(s)[0] == s[..k];
    if e <= s {
      var rest := s[|e|..];
      assert s == e + rest;
      IndexOfConcat(e, ',', rest);
      assert s[..k][..|e|] == e;
    }
  }

  lemma PrefixSplit(s: string, a: string, b: string)
    ensures a + b <= s <==> a <= s && b <= s[|a|..]
  {
    if a <= s && b <= s[|a|..] {
      assert s == a + (b + s[|a|..][|b|..]);
    }
    if a + b <= s {
      assert s[..|a|] == (a + b)[..|a|] == a;
      assert s[|a|..][..|b|] == s[..|a| + |b|][|a|..] == b;
    }
  }

  lemma ColonSplit(s: string, name: string)
    ensures name + ":" <= s <==> name <= s && |s| > |name| && s[|name|] == ':'
  {
    PrefixSplit(s, name, ":");
  }

  /** The verdict depends on the first entry only, and on it exactly. */
  lemma StartsWithExact(s: string, ev: Event)
    requires PlainEvent(ev)
    ensures var first := Entries(s)[0]; var m := ListStartsWith(s, ev.name, ev.device);
      && (m == MatchMethod <==> first == ev.name)
      && (m == MatchBoth <==> ev.device.Some? && first == ev.name + ":" + ev.device.value)
      && (m == MatchPartial <==> ev.device.None? && ev.name + ":" <= first)
  {
    hide Entries;
    var c := ev.name + ":";
    ColonSplit(s, ev.name);
    FirstEntry(s, ev.name);
    FirstEntryStarts(s, c);
    if ev.device.Some? {
      var e := c + ev.device.value;
      FirstEntry(s, e);
      PrefixSplit(s, c, ev.device.value);
    }
  }

  /** `remove_method`: the list without its first entry if the event matches it. */
  function RemoveMethod(s: string, ev: Event): Option<string> {
    var m := ListStartsWith(s, ev.name, ev.device);
    if m != MatchMethod && m != MatchBoth then None else
      var skip := |ev.name| + (if ev.device.Some? && m == MatchBoth then 1 + |ev.device.value| else 0);
      if skip < |s| && s[skip] == ',' then Some(s[skip + 1..])
      else Some(s[skip..])
  }

  lemma JoinNone()
    ensures Join([]) == ""
  {
  }

  /** Removal succeeds exactly when the event satisfies the first entry, and then leaves the others. */
  lemma RemoveExact(s: string, ev: Event)
    requires PlainEvent(ev)
    ensures RemoveMethod(s, ev) ==
      if Satisfies(ev, Entries(s)[0]) then Some(Join(Entries(s)[1..])) else None
  {
    hide IndexOf, Entries, ListStartsWith, Join;
    StartsWithExact(s, ev);
    EntriesStep(s);
    JoinNone();
    var first := Entries(s)[0];
    if Satisfies(ev, first) {
      var k := IndexOf(s, ',');
      assert first == s[..k];
      if k == |s| {
        assert Entries(s)[1..] == [];
        assert s[|s|..] == "" && |first| == |s|;
      } else {
        JoinEntries(s[k + 1..]);
        assert Entries(s)[1..] == Entries(s[k + 1..]);
      }
    }
  }

  /**
   * A method without a device is admitted by a list and then cannot be removed from it exactly when the
   * first entry names the method with a device.
   */
  lemma AdmittedButNotRemovable(s: string, name: string)
    requires PlainMethod(name)
    ensures ListStartsWith(s, name, None) != MatchNone && RemoveMethod(s, Event(name, None)).None?
       <==> name + ":" <= Entries(s)[0]
  {
    hide Entries;
    StartsWithExact(s, Event(name, None));
    var first := Entries(s)[0];
    if name + ":" <= first {
      assert first[|name|] == ':';
    }
  }

  // ----- Consuming a list and embedding it in a run -----

  /** How many entries the events have consumed when each event takes the next entry if it can. */
  function Consumed(es: seq<string>, evs: seq<Event>): (c: nat)
    ensures c <= |es|
  {
    if evs == [] then 0 else
      var c := Consumed(es, evs[..|evs| - 1]);
      if c < |es| && Satisfies(evs[|evs| - 1], es[c]) then c + 1 else c
  }

  /** `f` picks, in order, one event for every entry of the list. */
  ghost predicate Picks(es: seq<string>, evs: seq<Event>, f: seq<nat>) {
    && |f| == |es|
    && (forall i :: 0 <= i < |f| ==> f[i] < |evs| && Satisfies(evs[f[i]], es[i]))
    && (forall i, j :: 0 <= i < j < |f| ==> f[i] < f[j])
  }

  ghost predicate Embeds(es: seq<string>, evs: seq<Event>) {
    exists f :: Picks(es, evs, f)
  }

  /** However the events are picked, consumption is never behind. */
  lemma {:induction false} NeverBehind(es: seq<string>, evs: seq<Event>, f: seq<nat>, n: nat, i: nat)
    requires Picks(es, evs, f) && n <= |evs| && i < |f| && f[i] < n
    ensures i < Consumed(es, evs[..n])
    decreases n
  {
    assert evs[..n][..n - 1] == evs[..n - 1];
    if f[i] < n - 1 {
      NeverBehind(es, evs, f, n - 1, i);
    } else if i > 0 {
      assert f[i - 1] < f[i];
      NeverBehind(es, evs, f, n - 1, i - 1);
    }
  }

  /** What was consumed was satisfied in order. */
  lemma {:induction false} ConsumedPicks(es: seq<string>, evs: seq<Event>) returns (f: seq<nat>)
    ensures Picks(es[..Consumed(es, evs)], evs, f)
  {
    if evs == [] {
      f := [];
    } else {
      var n := |evs| - 1;
      var c := Consumed(es, evs[..n]);
      f := ConsumedPicks(es, evs[..n]);
      if c < |es| && Satisfies(evs[n], es[c]) {
        f := f + [n];
      }
    }
  }

  /** A list is used up exactly when its entries occur in order among the events. */
  lemma ConsumedExact(es: seq<string>, evs: seq<Event>)
    ensures Consumed(es, evs) == |es| <==> Embeds(es, evs)
  {
    if Consumed(es, evs) == |es| {
      var f := ConsumedPicks(es, evs);
      assert es[..|es|] == es;
    }
    if Embeds(es, evs) {
      var f :| Picks(es, evs, f);
      assert evs[..|evs|] == evs;
      if es != [] {
        NeverBehind(es, evs, f, |evs|, |es| - 1);
      }
    }
  }

  // ----- Configured lists -----

  /** The names in `authmethods`, in order. */
  function AuthMethods(gssapi: bool): (table: seq<string>)
    ensures forall m <- table :: PlainMethod(m)
    ensures "keyboard-interactive" in table && "password" in table
    ensures "none" in table && "publickey" in table && "hostbased" in table && ("gssapi-with-mic" in table <==> gssapi)
  {
    hide PlainMethod;
    PlainNames();
    var head := ["none", "publickey"];
    var tail := ["password", "keyboard-interactive", "hostbased"];
    assert head[0] == "none" && head[1] == "publickey";
    assert tail[0] == "password" && tail[1] == "keyboard-interactive" && tail[2] == "hostbased";
    if gssapi then head + ["gssapi-with-mic"] + tail else head + tail
  }

  lemma PlainNames()
    ensures PlainMethod("none") && PlainMethod("publickey") && PlainMethod("gssapi-with-mic")
    ensures PlainMethod("password") && PlainMethod("keyboard-interactive") && PlainMethod("hostbased")
    ensures |"gssapi-with-mic"| == 15 && |"keyboard-interactive"| == 20
  {
    hide PlainMethod;
    ShortNames();
    LongNames();
  }

  lemma ShortNames()
    ensures PlainMethod("none") && PlainMethod("publickey") && PlainMethod("password") && PlainMethod("hostbased")
  {
  }

  lemma LongNames()
    ensures PlainMethod("gssapi-with-mic") && PlainMethod("keyboard-interactive")
  {
  }

  /** Every entry names a known method, one that is enabled if that is asked for. */
  predicate ListValid(s: string, table: seq<string>, enabled: set<string>, needEnable: bool) {
    s != "" && forall e <- Entries(s) :: EntryValid(e, table, enabled, needEnable)
  }

  predicate EntryValid(e: string, table: seq<string>, enabled: set<string>, needEnable: bool) {
    MethodPart(e) in table && (needEnable ==> MethodPart(e) in enabled)
  }

  /** The configured lists that survive the pruning of disabled methods. */
  function ValidLists(config: seq<string>, table: seq<string>, enabled: set<string>): seq<string> {
    if config == [] then [] else
      var last := |config| - 1;
      var front := ValidLists(config[..last], table, enabled);
      if ListValid(config[last], table, enabled, true) then front + [config[last]] else front
  }

  lemma {:induction false} ValidListsExact(config: seq<string>, table: seq<string>, enabled: set<string>, s: string)
    ensures s in ValidLists(config, table, enabled) <==> s in config && ListValid(s, table, enabled, true)
  {
    if config != [] {
      var last := |config| - 1;
      ValidListsExact(config[..last], table, enabled, s);
      assert config == config[..last] + [config[last]];
    }
  }

  predicate NoEmptyEntry(s: string) {
    forall e <- Entries(s) :: e != ""
  }

  /** What the events leave of a configured list. */
  function Rest(s: string, evs: seq<Event>): string {
    Join(Entries(s)[Consumed(Entries(s), evs)..])
  }

  predicate Complete(s: string, evs: seq<Event>) {
    Consumed(Entries(s), evs) == |Entries(s)|
  }

  lemma RestEmpty(es: seq<string>, c: nat)
    requires c <= |es| && forall e <- es :: e != ""
    ensures Join(es[c..]) == "" <==> c == |es|
  {
    if c < |es| {
      assert es[c] in es;
      assert es[c..][0] == es[c];
    }
  }

  lemma ConsumedSnoc(es: seq<string>, evs: seq<Event>, ev: Event)
    ensures var c := Consumed(es, evs);
      Consumed(es, evs + [ev]) == if c < |es| && Satisfies(ev, es[c]) then c + 1 else c
  {
    assert (evs + [ev])[..|evs|] == evs;
  }

  /** Removing an event from the remaining text keeps it the rest of the configured list. */
  lemma UpdateOne(s: string, evs: seq<Event>, ev: Event)
    requires PlainEvent(ev) && NoEmptyEntry(s) && !Complete(s, evs)
    ensures var r := RemoveMethod(Rest(s, evs), ev);
      && (r.Some? <==> Satisfies(ev, Entries(s)[Consumed(Entries(s), evs)]))
      && Rest(s, evs + [ev]) == (if r.Some? then r.value else Rest(s, evs))
      && (Complete(s, evs + [ev]) <==> r.Some? && r.value == "")
  {
    hide Entries, Satisfies, RemoveMethod, Join, Consumed;
    var es := Entries(s);
    var c := Consumed(es, evs);
    EntriesHaveNoComma(s);
    assert forall e <- es[c..] :: e in es;
    EntriesJoin(es[c..]);
    RemoveExact(Rest(s, evs), ev);
    ConsumedSnoc(es, evs, ev);
    assert es[c..][1..] == es[c + 1..];
    RestEmpty(es, c + 1);
    RestEmpty(es, c);
  }

  lemma FreshList(s: string)
    ensures Rest(s, []) == s && !Complete(s, [])
  {
    JoinEntries(s);
    assert Entries(s)[0..] == Entries(s);
  }

  lemma ValidHasNoEmptyEntry(s: string, table: seq<string>, enabled: set<string>)
    requires ListValid(s, table, enabled, true) && forall m <- table :: PlainMethod(m)
    ensures NoEmptyEntry(s)
  {
    forall e <- Entries(s) ensures e != "" {
      assert MethodPart(e) in table;
    }
  }

  // ----- Authentication context -----

  /** A public key, identified by its encoding. */
  datatype Key = Key(blob: seq<byte>)

  /** What one request brings along: the client's key and signature, and the verdicts of code not modelled here. */
  datatype Try = Try(key: Key, usable: bool, acceptable: bool, haveSig: bool, good: bool, optionsOk: bool,
                     result: bool, postpone: bool, serverFailure: bool, rootAllowed: bool, pamAllows: bool,
                     memory: bool)

  /** Whether a method accepts the user; `used` says that the key was recorded before. */
  predicate Verdict(name: string, t: Try, valid: bool, used: bool) {
    if name == "publickey" then t.usable && !used && t.acceptable && valid && t.haveSig && t.good && t.optionsOk
    else if name == "hostbased" then t.usable && valid && t.good
    else t.result
  }

  /** Whether a method leaves the verdict open: a key without a signature is only asked about. */
  predicate Postpones(name: string, t: Try, valid: bool, used: bool) {
    if name == "publickey" then t.usable && !used && t.acceptable && valid && !t.haveSig && t.good
    else name != "hostbased" && t.postpone
  }

  /** Whether a method records the key, which happens before the key options are looked at. */
  predicate Records(name: string, t: Try, valid: bool, used: bool) {
    if name == "publickey" then t.usable && !used && t.acceptable && valid && t.haveSig && t.good
    else name == "hostbased" && t.usable && valid && t.good
  }

  /** Recording a key is fatal when there are too many or there is no memory. */
  predicate KeyFatal(name: string, t: Try, valid: bool, prevKeys: seq<Key>) {
    Records(name, t, valid, t.key in prevKeys) && (|prevKeys| >= INT_MAX || !t.memory)
  }

  /** `authmethod_lookup` finds a method that is known, enabled, and next in what the events left of some list. */
  ghost predicate Admitted(name: string, table: seq<string>, enabled: set<string>, config: seq<string>,
                           configured: seq<string>, evs: seq<Event>) {
    && name in table && name in enabled
    && (config == [] || exists s :: s in configured && ListStartsWith(Rest(s, evs), name, None) != MatchNone)
  }

  /** No list is waiting for the event. */
  ghost predicate NoneTakes(configured: seq<string>, evs: seq<Event>, ev: Event) {
    forall s :: s in configured ==> !Takes(s, evs, ev)
  }

  datatype Device = BsdAuth | Pam | Skey {
    function Name(): (s: string)
      ensures ',' !in s
    {
      match this case BsdAuth => "bsdauth" case Pam => "pam" case Skey => "skey"
    }
  }

  datatype Step =
    | Request(sameUser: bool, validUser: bool, name: string, tried: Try)
    | InfoResponse(pending: bool, res: int, sent: bool, next: bool, device: Device, rootAllowed: bool,
                   pamAllows: bool)

  /** The event a message stands for if it is accepted. */
  function EventOf(st: Step): Event {
    match st
    case Request(_, _, name, _) => Event(name, None)
    case InfoResponse(_, _, _, _, device, _, _) => Event("keyboard-interactive", Some(device.Name()))
  }

  /** The key a message proves possession of. */
  function KeyOf(st: Step): Option<Key> {
    if st.Request? && st.name == "publickey" then Some(st.tried.key) else None
  }

  /** The method, or the device, has approved of the user: what the code that checks credentials answered. */
  predicate Approval(st: Step) {
    match st
    case Request(_, _, name, t) =>
      t.rootAllowed &&
      if name == "publickey" then t.usable && t.acceptable && t.haveSig && t.good && t.optionsOk
      else if name == "hostbased" then t.usable && t.good
      else t.result
    case InfoResponse(pending, res, _, _, _, rootAllowed, _) => pending && res == 0 && rootAllowed
  }

  predicate PamAllows(st: Step) {
    if st.Request? then st.tried.pamAllows else st.pamAllows
  }

  /** The events and keys are those of approvals among the messages, in the order in which these came. */
  ghost predicate Approvals(steps: seq<Step>, chosen: seq<nat>, evs: seq<Event>, keys: seq<Option<Key>>) {
    && |chosen| == |evs| == |keys|
    && (forall j :: 0 <= j < |chosen| ==>
          && chosen[j] < |steps| && Approval(steps[chosen[j]])
          && evs[j] == EventOf(steps[chosen[j]]) && keys[j] == KeyOf(steps[chosen[j]]))
    && (forall i, j :: 0 <= i < j < |chosen| ==> chosen[i] < chosen[j])
  }

  /** Each publickey event carries its key, and no two carry the same one. */
  ghost predicate KeysDiffer(evs: seq<Event>, keys: seq<Option<Key>>) {
    && |keys| == |evs|
    && (forall i :: 0 <= i < |keys| ==> (keys[i].Some? <==> evs[i].name == "publickey"))
    && (forall i, j :: 0 <= i < j < |keys| && keys[i].Some? ==> keys[i] != keys[j])
  }

  /** The table loop of `auth2_methods_valid`. */
  method CheckEntry(entry: string, table: seq<string>, enabled: set<string>, needEnable: bool) returns (found: bool)
    ensures found <==> EntryValid(entry, table, enabled, needEnable)
  {
    var name := entry[..IndexOf(entry, ':')];
    for i := 0 to |table|
      invariant name !in table[..i]
    {
      if name == table[i] {
        return !needEnable || name in enabled;
      }
    }
    assert table[..|table|] == table;
    found := false;
  }

  /** `auth2_methods_valid`: the strsep loop over the list. */
  method MethodsValid(list: string, table: seq<string>, enabled: set<string>, needEnable: bool) returns (r: int)
    ensures r == if ListValid(list, table, enabled, needEnable) then 0 else -1
  {
    hide Entries, EntryValid, IndexOf;
    if list == "" {
      return -1;
    }
    var rest := Some(list);
    ghost var done: seq<string> := [];
    while rest.Some?
      invariant Entries(list) == done + if rest.Some? then Entries(rest.value) else []
      invariant forall e <- done :: EntryValid(e, table, enabled, needEnable)
      decreases if rest.Some? then |rest.value| + 1 else 0
    {
      var k := IndexOf(rest.value, ',');
      EntriesStep(rest.value);
      var entry := rest.value[..k];
      var found := CheckEntry(entry, table, enabled, needEnable);
      assert Entries(list)[|done|] == entry;
      if !found {
        return -1;
      }
      done := done + [entry];
      rest := if k == |rest.value| then None else Some(rest.value[k + 1..]);
    }
    r := 0;
  }

  /** The text is what the events leave of the list, which they do not complete. */
  ghost predicate Follows(s: string, text: string, evs: seq<Event>) {
    text == Rest(s, evs) && !Complete(s, evs)
  }

  ghost predicate AllFollow(configured: seq<string>, lists: seq<string>, evs: seq<Event>) {
    |lists| == |configured| && forall i :: 0 <= i < |lists| ==> Follows(configured[i], lists[i], evs)
  }

  /** Every text is the rest of its list, where the lists behind the one completed last missed the last event. */
  ghost predicate Suffixes(configured: seq<string>, lists: seq<string>, evs: seq<Event>, done: bool) {
    |lists| == |configured| && forall i :: 0 <= i < |lists| ==>
      || lists[i] == Rest(configured[i], evs)
      || (done && evs != [] && lists[i] == Rest(configured[i], evs[..|evs| - 1]))
  }

  lemma SuffixesGrow(configured: seq<string>, lists: seq<string>, evs: seq<Event>, ev: Event, done: bool)
    requires |lists| == |configured|
    requires forall i :: 0 <= i < |lists| ==>
      lists[i] == Rest(configured[i], evs + [ev]) || (done && lists[i] == Rest(configured[i], evs))
    ensures Suffixes(configured, lists, evs + [ev], done)
  {
    hide Rest;
    assert (evs + [ev])[..|evs|] == evs;
  }

  lemma NoApprovals(evs: seq<Event>, keys: seq<Option<Key>>)
    ensures Approvals([], [], evs[|evs|..], keys[|keys|..])
  {
  }

  lemma ApprovalsGrow(steps: seq<Step>, served: nat, chosen: seq<nat>, evs: seq<Event>, keys: seq<Option<Key>>)
    requires served < |steps| && Approvals(steps[..served], chosen, evs, keys)
    ensures Approvals(steps[..served + 1], chosen, evs, keys)
    ensures Approval(steps[served]) ==> Approvals(steps[..served + 1], chosen + [served],
                                                  evs + [EventOf(steps[served])], keys + [KeyOf(steps[served])])
  {
    hide Approval, EventOf, KeyOf;
    assert forall i :: 0 <= i < served ==> steps[..served][i] == steps[..served + 1][i];
  }

  lemma KeysGrow(evs: seq<Event>, keys: seq<Option<Key>>, ev: Event, key: Option<Key>)
    requires KeysDiffer(evs, keys) && (key.Some? <==> ev.name == "publickey") && (key.Some? ==> key !in keys)
    ensures KeysDiffer(evs + [ev], keys + [key])
  {
  }

  /** The entry a list is waiting for. */
  function NextEntry(s: string, evs: seq<Event>): Option<string> {
    var c := Consumed(Entries(s), evs);
    if c < |Entries(s)| then Some(Entries(s)[c]) else None
  }

  predicate Takes(s: string, evs: seq<Event>, ev: Event) {
    NextEntry(s, evs).Some? && Satisfies(ev, NextEntry(s, evs).value)
  }

  class AuthContext {
    const config: seq<string>
    const gssapi: bool
    const maxTries: int
    var enabled: set<string>
    var attempt: nat
    var failures: nat
    var valid: bool
    var postponed: bool
    var serverFailure: bool
    var success: bool
    var dead: bool
    var lists: seq<string>
    var prevKeys: seq<Key>
    ghost var enabledThen: set<string>
    ghost var accepted: seq<Event>
    ghost var keys: seq<Option<Key>>
    ghost var refused: bool  // PAM turned the user away after a list was complete

    /** The configured lists that were valid when the first request arrived. */
    ghost function Configured(): seq<string>
      reads this`enabledThen
    {
      ValidLists(config, AuthMethods(gssapi), enabledThen)
    }

    /** Every remaining text is what the accepted events leave of its list, and no list is complete. */
    ghost predicate Tracks()
      reads this`lists, this`accepted, this`enabledThen
    {
      AllFollow(Configured(), lists, accepted)
    }

    /** The keys of accepted publickey events differ, and all of them were recorded. */
    ghost predicate Keys()
      reads this`prevKeys, this`keys, this`accepted
    {
      KeysDiffer(accepted, keys) && forall k :: k in keys && k.Some? ==> k.value in prevKeys
    }

    ghost predicate SomeComplete()
      reads this`accepted, this`enabledThen
    {
      exists s :: s in Configured() && Complete(s, accepted)
    }

    /** How far the lists are: `done` says that one was completed. */
    ghost predicate Progress(done: bool)
      reads this`lists, this`accepted, this`enabledThen, this`attempt
    {
      && (attempt == 0 ==> accepted == [] && !done)
      && (config == [] ==> (done <==> accepted != []))
      && (config != [] && attempt > 0 ==>
            && Suffixes(Configured(), lists, accepted, done)
            && if done then SomeComplete() else Tracks())
    }

    ghost predicate Valid()
      reads this
    {
      Keys() && Progress(success || refused) && (refused ==> dead && !success)
    }

    constructor (config: seq<string>, gssapi: bool, maxTries: int, enabled: set<string>)
      ensures Valid() && !dead && !success && !refused && attempt == 0 && failures == 0 && accepted == [] && prevKeys == []
      ensures this.config == config && this.gssapi == gssapi && this.maxTries == maxTries && this.enabled == enabled
    {
      this.config, this.gssapi, this.maxTries, this.enabled := config, gssapi, maxTries, enabled;
      attempt, failures, valid, postponed, serverFailure, success, dead := 0, 0, false, false, false, false, false;
      lists, prevKeys, accepted, keys, refused := [], [], [], [], false;
    }

    /** `auth2_setup_methods_lists`. */
    method SetupMethodsLists() returns (r: int)
      requires accepted == []
      modifies this`lists, this`enabledThen
      ensures enabledThen == enabled
      ensures config != [] ==> Tracks() && (r == 0 <==> Configured() != [])
      ensures config == [] ==> r == 0
    {
      hide ListValid, AuthMethods, Rest, Complete;
      enabledThen := enabled;
      if config == [] {
        return 0;
      }
      lists := [];
      for i := 0 to |config|
        invariant enabledThen == enabled
        invariant lists == ValidLists(config[..i], AuthMethods(gssapi), enabled)
      {
        assert config[..i + 1][..i] == config[..i];
        var v := MethodsValid(config[i], AuthMethods(gssapi), enabled, true);
        if v == 0 {
          lists := lists + [config[i]];
        }
      }
      assert config[..|config|] == config;
      forall i | 0 <= i < |lists| ensures Follows(lists[i], lists[i], []) {
        FreshList(lists[i]);
      }
      r := if lists == [] then -1 else 0;
    }

    lemma ConfiguredPlain(i: nat)
      requires i < |Configured()|
      ensures NoEmptyEntry(Configured()[i])
    {
      ValidListsExact(config, AuthMethods(gssapi), enabledThen, Configured()[i]);
      ValidHasNoEmptyEntry(Configured()[i], AuthMethods(gssapi), enabledThen);
    }

    /** `auth2_method_allowed`. */
    method MethodAllowed(name: string, device: Option<string>) returns (r: bool)
      ensures r <==> config == [] || exists s :: s in lists && ListStartsWith(s, name, device) != MatchNone
    {
      if config == [] {
        return true;
      }
      for i := 0 to |lists|
        invariant forall j :: 0 <= j < i ==> ListStartsWith(lists[j], name, device) == MatchNone
      {
        if ListStartsWith(lists[i], name, device) != MatchNone {
          return true;
        }
      }
      r := false;
    }

    /** `authmethod_lookup`. */
    method MethodLookup(name: string) returns (r: bool)
      ensures r <==> (name in AuthMethods(gssapi) && name in enabled &&
        (config == [] || exists s :: s in lists && ListStartsWith(s, name, None) != MatchNone))
    {
      hide ListStartsWith, AuthMethods;
      var table := AuthMethods(gssapi);
      for i := 0 to |table|
        invariant name in table[..i] && name in enabled ==>
          config != [] && forall s :: s in lists ==> ListStartsWith(s, name, None) == MatchNone
      {
        if table[i] in enabled && name == table[i] {
          var ok := MethodAllowed(table[i], None);
          if ok {
            return true;
          }
        }
      }
      assert table[..|table|] == table;
      r := false;
    }

    /**
     * `auth2_update_methods_lists`: takes the event off the front of every list that starts with it, up to
     * the first list this completes. The process dies when no list starts with it.
     */
    method UpdateMethodsLists(ev: Event) returns (r: bool)
      requires PlainEvent(ev) && Tracks() && !dead
      modifies this`lists, this`dead
      ensures |lists| == |Configured()|
      ensures r <==> exists s :: s in Configured() && Complete(s, accepted + [ev])
      ensures !r ==> AllFollow(Configured(), lists, accepted + [ev])
      ensures forall i :: 0 <= i < |lists| ==>
        lists[i] == Rest(Configured()[i], accepted + [ev]) || (r && lists[i] == Rest(Configured()[i], accepted))
      ensures dead <==> forall s :: s in Configured() ==> !Takes(s, accepted, ev)
      ensures dead ==> lists == old(lists)
    {
      hide Rest, RemoveMethod, ValidLists, Takes, Complete, PlainEvent, NoEmptyEntry, AuthMethods;
      ghost var conf := Configured();
      ghost var next := accepted + [ev];
      var found := false;
      for i := 0 to |lists|
        invariant |lists| == |conf| && !dead
        invariant forall j :: 0 <= j < i ==> Follows(conf[j], lists[j], next)
        invariant forall j :: i <= j < |lists| ==> Follows(conf[j], lists[j], accepted)
        invariant found <==> exists j :: 0 <= j < i && Takes(conf[j], accepted, ev)
        invariant !found ==> lists == old(lists)
      {
        ConfiguredPlain(i);
        UpdateList(conf[i], accepted, ev);
        var rest := RemoveMethod(lists[i], ev);
        if rest.Some? {
          lists := lists[i := rest.value];
          found := true;
          if lists[i] == "" {
            assert conf[i] in conf;
            return true;
          }
        }
      }
      if !found {
        dead := true;
      }
      r := false;
    }

    /** The call of `auth2_update_methods_lists` in `userauth_finish`, with the history it stands for. */
    method Accept(ev: Event, ghost key: Option<Key>) returns (ok: bool)
      requires Keys() && Progress(false) && !dead && attempt > 0
      requires PlainEvent(ev) && (key.Some? <==> ev.name == "publickey")
      requires key.Some? ==> key !in keys && key.value in prevKeys
      modifies this`dead, this`lists, this`accepted, this`keys
      ensures Keys() && Progress(ok)
      ensures dead ==> !ok && accepted == old(accepted)
      ensures dead <==> config != [] && NoneTakes(Configured(), old(accepted), ev)
      ensures !dead ==> accepted == old(accepted) + [ev] && keys == old(keys) + [key]
      ensures dead ==> keys == old(keys)
    {
      hide ValidLists, Rest, Complete, PlainEvent, AuthMethods, Takes, KeysDiffer, Suffixes, AllFollow;
      KeysGrow(accepted, keys, ev, key);
      ok := true;
      if config != [] {
        ok := UpdateMethodsLists(ev);
        if dead {
          return false;
        }
        SuffixesGrow(Configured(), lists, accepted, ev, ok);
      }
      accepted, keys := accepted + [ev], keys + [key];
    }

    /**
     * `userauth_finish`: `rootAllowed` is false when the user is root and root may not use this method, and
     * `pamAllows` is false when the account check of PAM fails.
     */
    method UserauthFinish(authenticated: bool, name: string, device: Option<string>, rootAllowed: bool, pamAllows: bool,
                          ghost key: Option<Key>)
      requires Valid() && !dead && !success && attempt > 0
      requires authenticated ==> PlainEvent(Event(name, device)) && (key.Some? <==> name == "publickey")
      requires key.Some? ==> key !in keys && key.value in prevKeys
      modifies this`success, this`dead, this`failures, this`lists, this`accepted, this`keys, this`refused
      ensures Valid()
      ensures success ==> authenticated && rootAllowed && valid && !postponed && pamAllows
      ensures refused ==> authenticated && rootAllowed && valid && !postponed && !pamAllows
      ensures authenticated && (!valid || postponed) ==> dead && accepted == old(accepted) && failures == old(failures)
      ensures dead <==>
        || (authenticated && (!valid || postponed))
        || (authenticated && rootAllowed && config != [] && NoneTakes(Configured(), old(accepted), Event(name, device)))
        || refused
        || (!success && !postponed && failures >= maxTries)
      ensures accepted == if authenticated && rootAllowed && valid && !postponed
            && (config == [] || !NoneTakes(Configured(), old(accepted), Event(name, device)))
          then old(accepted) + [Event(name, device)] else old(accepted)
      ensures keys == if accepted == old(accepted) then old(keys) else old(keys) + [key]
      ensures success ==> accepted != old(accepted)
      ensures failures == old(failures) + if (authenticated && (rootAllowed || !valid)) || postponed || serverFailure
        || (attempt == 1 && name == "none") then 0 else 1
    {
      hide Keys, Progress, PlainEvent, NoneTakes, ValidLists, AuthMethods;
      if !valid && authenticated {
        dead := true;
        return;
      }
      if authenticated && postponed {
        dead := true;
        return;
      }
      var ok := authenticated && rootAllowed;
      var partial := false;
      if ok {
        ok := Accept(Event(name, device), key);
        if dead {
          return;
        }
        partial := !ok;
      }
      if postponed {
        return;
      }
      if ok {
        if !pamAllows {
          dead, refused := true, true;
          return;
        }
        success := true;
      } else {
        if !partial && !serverFailure && (attempt > 1 || name != "none") {
          failures := failures + 1;
        }
        if failures >= maxTries {
          dead := true;
        }
      }
    }

    /** `auth2_record_key`. */
    method RecordKey(authenticated: bool, key: Key, memory: bool)
      requires Keys() && !dead
      modifies this`prevKeys, this`dead
      ensures Keys()
      ensures dead <==> authenticated && (|old(prevKeys)| >= INT_MAX || !memory)
      ensures prevKeys == if authenticated && !dead then old(prevKeys) + [key] else old(prevKeys)
    {
      if !authenticated {
        return;
      }
      if |prevKeys| >= INT_MAX || !memory {
        dead := true;
        return;
      }
      prevKeys := prevKeys + [key];
    }

    /** `auth2_key_already_used`. */
    method KeyAlreadyUsed(key: Key) returns (r: bool)
      ensures r <==> key in prevKeys
    {
      for i := 0 to |prevKeys|
        invariant key !in prevKeys[..i]
      {
        if key == prevKeys[i] {
          return true;
        }
      }
      assert prevKeys[..|prevKeys|] == prevKeys;
      r := false;
    }

    /** The key checks of `userauth_pubkey`. */
    method UserauthPubkey(t: Try) returns (authenticated: bool)
      requires Keys() && !dead
      modifies this`prevKeys, this`dead, this`postponed
      ensures Keys()
      ensures authenticated && !dead ==> Some(t.key) !in keys && t.key in prevKeys
      ensures authenticated == Verdict("publickey", t, valid, t.key in old(prevKeys))
      ensures dead <==> KeyFatal("publickey", t, valid, old(prevKeys))
      ensures postponed == (old(postponed) || Postpones("publickey", t, valid, t.key in old(prevKeys)))
      ensures prevKeys == if !dead && Records("publickey", t, valid, t.key in old(prevKeys)) then old(prevKeys) + [t.key]
                          else old(prevKeys)
    {
      authenticated := false;
      if !t.usable {
        return;
      }
      var used := KeyAlreadyUsed(t.key);
      if used || !t.acceptable || !valid {
        return;
      }
      if t.haveSig {
        authenticated := t.good;
        RecordKey(authenticated, t.key, t.memory);
      } else if t.good {
        postponed := true;
      }
      if authenticated && !t.optionsOk {
        authenticated := false;
      }
    }

    /** `m->userauth` for every method in the table. */
    method Userauth(name: string, t: Try) returns (authenticated: bool)
      requires Keys() && !dead
      modifies this`prevKeys, this`dead, this`postponed, this`serverFailure, this`enabled
      ensures Keys()
      ensures authenticated && !dead && name == "publickey" ==> Some(t.key) !in keys && t.key in prevKeys
      ensures authenticated == Verdict(name, t, valid, t.key in old(prevKeys))
      ensures dead <==> KeyFatal(name, t, valid, old(prevKeys))
      ensures !old(postponed) ==> postponed == Postpones(name, t, valid, t.key in old(prevKeys))
      ensures prevKeys == if !dead && Records(name, t, valid, t.key in old(prevKeys)) then old(prevKeys) + [t.key]
                          else old(prevKeys)
      ensures enabled == if name == "none" then old(enabled) - {"none"} else old(enabled)
      ensures serverFailure == if name == "publickey" || name == "hostbased" then old(serverFailure) else t.serverFailure
    {
      if name == "publickey" {
        authenticated := UserauthPubkey(t);
      } else if name == "hostbased" {
        authenticated := t.usable && valid && t.good;
        if t.usable && valid {
          RecordKey(authenticated, t.key, t.memory);
        }
      } else {
        if name == "none" {
          enabled := enabled - {"none"};
        }
        authenticated := t.result;
        postponed := t.postpone;
        serverFailure := t.serverFailure;
      }
    }

    /** The set-up on the first request, and the check that later ones keep the user. */
    method StartRequest(sameUser: bool, validUser: bool)
      requires Progress(false) && !dead
      modifies this`attempt, this`valid, this`dead, this`lists, this`enabledThen
      ensures Progress(false) && attempt == old(attempt) + 1
      ensures old(attempt) > 0 ==> enabledThen == old(enabledThen) && valid == old(valid) && lists == old(lists)
      ensures old(attempt) == 0 ==> enabledThen == enabled && valid == validUser
      ensures dead <==> if old(attempt) == 0 then config != [] && Configured() == [] else !sameUser
    {
      hide Tracks, SomeComplete, Suffixes;
      attempt := attempt + 1;
      if attempt == 1 {
        valid := validUser;
        var r := SetupMethodsLists();
        Started();
        if r != 0 {
          dead := true;
        }
      } else if !sameUser {
        dead := true;
      }
    }

    /** The first request finds no list usable, or a later one names another user. */
    ghost predicate Rejected(sameUser: bool, first: bool)
      reads this`enabledThen
    {
      if first then config != [] && Configured() == [] else !sameUser
    }

    /** `input_userauth_request`. */
    method InputUserauthRequest(sameUser: bool, validUser: bool, name: string, t: Try)
      requires Valid() && !dead && !success
      modifies this
      ensures Valid()
      ensures attempt == old(attempt) + 1
      ensures if old(attempt) == 0 then enabledThen == old(enabled) && valid == validUser
              else enabledThen == old(enabledThen) && valid == old(valid)
      ensures !dead && old(attempt) > 0 ==> sameUser
      ensures Outcome(Rejected(sameUser, old(attempt) == 0),
                      Admitted(name, AuthMethods(gssapi), old(enabled), config, Configured(), old(accepted))
                        && old(failures) < maxTries,
                      name, t, old(prevKeys), old(accepted), old(keys))
      ensures Effects(Rejected(sameUser, old(attempt) == 0),
                      Admitted(name, AuthMethods(gssapi), old(enabled), config, Configured(), old(accepted))
                        && old(failures) < maxTries,
                      name, t, old(prevKeys), old(failures), old(enabled))
    {
      hide Verdict, KeyFatal, Postpones, NoneTakes, ValidLists, Progress, KeysDiffer, AuthMethods, Admitted;
      StartRequest(sameUser, validUser);
      if dead {
        return;
      }
      Serve(name, t);
    }

    /** The rest of `input_userauth_request`: look the method up, try it, and finish. */
    method Serve(name: string, t: Try)
      requires Valid() && !dead && !success && attempt > 0
      modifies this`postponed, this`serverFailure, this`prevKeys, this`dead, this`enabled,
               this`success, this`failures, this`lists, this`accepted, this`keys, this`refused
      ensures Valid()
      ensures Outcome(false, Admitted(name, AuthMethods(gssapi), old(enabled), config, Configured(), old(accepted))
                        && old(failures) < maxTries,
                      name, t, old(prevKeys), old(accepted), old(keys))
      ensures Effects(false,
                      Admitted(name, AuthMethods(gssapi), old(enabled), config, Configured(), old(accepted))
                        && old(failures) < maxTries,
                      name, t, old(prevKeys), old(failures), old(enabled))
    {
      hide Verdict, KeyFatal, Postpones, Admitted, NoneTakes, ValidLists, Progress, Keys, AuthMethods, PlainMethod;
      var authenticated := Attempt(name, t);
      if dead {
        return;
      }
      ghost var key := if authenticated && name == "publickey" then Some(t.key) else None;
      UserauthFinish(authenticated, name, None, t.rootAllowed, t.pamAllows, key);
    }

    /** Looks the method up and, if it is admitted and tries are left, lets it decide. */
    method Attempt(name: string, t: Try) returns (authenticated: bool)
      requires Keys() && Progress(false) && !dead && attempt > 0
      modifies this`postponed, this`serverFailure, this`prevKeys, this`dead, this`enabled
      ensures Keys()
      ensures var tried := Admitted(name, AuthMethods(gssapi), old(enabled), config, Configured(), accepted)
                && failures < maxTries;
        && authenticated == (tried && Verdict(name, t, valid, t.key in old(prevKeys)))
        && (dead <==> tried && KeyFatal(name, t, valid, old(prevKeys)))
        && postponed == (tried && Postpones(name, t, valid, t.key in old(prevKeys)))
        && enabled == (if tried && name == "none" then old(enabled) - {"none"} else old(enabled))
        && serverFailure == (tried && name != "publickey" && name != "hostbased" && t.serverFailure)
        && (!tried ==> prevKeys == old(prevKeys))
      ensures authenticated ==> PlainMethod(name)
      ensures authenticated && !dead && name == "publickey" ==> Some(t.key) !in keys && t.key in prevKeys
    {
      hide Verdict, KeyFatal, Records, Postpones, ValidLists, ListStartsWith, Progress, Keys, AuthMethods, PlainMethod, Rest;
      postponed, serverFailure := false, false;
      LookupIs(name);
      var m := MethodLookup(name);
      authenticated := false;
      if m && failures < maxTries {
        authenticated := Userauth(name, t);
      }
    }

    /** When a request adds its event to the accepted ones, and when it ends the connection. */
    ghost predicate Outcome(rejected: bool, tried: bool, name: string, t: Try, keysThen: seq<Key>, before: seq<Event>,
                            keysBefore: seq<Option<Key>>)
      reads this
    {
      var ev := Event(name, None);
      var keyFatal := tried && KeyFatal(name, t, valid, keysThen);
      var ok := tried && Verdict(name, t, valid, t.key in keysThen);
      && (accepted == if !rejected && !keyFatal && ok && t.rootAllowed && valid && !postponed
                         && (config == [] || !NoneTakes(Configured(), before, ev))
                      then before + [ev] else before)
      && keys == (if accepted == before then keysBefore
                  else keysBefore + [if name == "publickey" then Some(t.key) else None])
      && (success ==> accepted != before && t.pamAllows)
      && (refused ==> !rejected && ok && !t.pamAllows)
      && (!rejected ==> postponed == (tried && Postpones(name, t, valid, t.key in keysThen)))
      && (dead <==>
            || rejected
            || keyFatal
            || (ok && (!valid || postponed))
            || (ok && t.rootAllowed && config != [] && NoneTakes(Configured(), before, ev))
            || refused
            || (!success && !postponed && failures >= maxTries))
    }

    /** What a request does to the counts and the tables. */
    ghost predicate Effects(rejected: bool, tried: bool, name: string, t: Try, keysThen: seq<Key>, failuresThen: nat,
                            enabledThen: set<string>)
      reads this
    {
      var keyFatal := tried && KeyFatal(name, t, valid, keysThen);
      var ok := tried && Verdict(name, t, valid, t.key in keysThen);
      && (rejected ==> failures == failuresThen)
      && (rejected || !tried ==> prevKeys == keysThen)
      && (!rejected ==>
            && serverFailure == (tried && name != "publickey" && name != "hostbased" && t.serverFailure)
            && enabled == (if tried && name == "none" then enabledThen - {"none"} else enabledThen)
            && failures == failuresThen + if keyFatal || (ok && (t.rootAllowed || !valid)) || postponed || serverFailure
                                             || (attempt == 1 && name == "none") then 0 else 1)
    }

    /** The remaining texts admit what the rests of the configured lists admit. */
    lemma LookupIs(name: string)
      requires Progress(false) && attempt > 0
      ensures config != [] ==>
        ((exists s :: s in lists && ListStartsWith(s, name, None) != MatchNone) <==>
         (exists s :: s in Configured() && ListStartsWith(Rest(s, accepted), name, None) != MatchNone))
    {
      hide ListStartsWith, Rest, Complete, Suffixes;
      if config == [] {
        return;
      }
      var conf := Configured();
      forall i | 0 <= i < |lists| ensures lists[i] == Rest(conf[i], accepted) {
        assert Follows(conf[i], lists[i], accepted);
      }
      if s :| s in lists && ListStartsWith(s, name, None) != MatchNone {
        var i :| 0 <= i < |lists| && lists[i] == s;
        assert conf[i] in conf;
      }
      if s :| s in conf && ListStartsWith(Rest(s, accepted), name, None) != MatchNone {
        var i :| 0 <= i < |conf| && conf[i] == s;
        assert lists[i] in lists;
      }
    }

    lemma Started()
      requires accepted == [] && attempt > 0 && (config != [] ==> Tracks())
      ensures Progress(false)
    {
      hide Rest, Complete;
    }

    /** `input_userauth_info_response`: the answer of a keyboard-interactive device. */
    method InputUserauthInfoResponse(pending: bool, res: int, sent: bool, next: bool, device: Device,
                                     rootAllowed: bool, pamAllows: bool)
      requires Valid() && !dead && !success
      modifies this`postponed, this`success, this`dead, this`failures, this`lists, this`accepted, this`keys, this`refused
      ensures Valid()
      ensures var ev := Event("keyboard-interactive", Some(device.Name()));
        var ok := pending && attempt > 0 && res == 0 && valid && rootAllowed;
        && (accepted == if ok && (config == [] || !NoneTakes(Configured(), old(accepted), ev))
                        then old(accepted) + [ev] else old(accepted))
        && keys == (if accepted == old(accepted) then old(keys) else old(keys) + [None])
        && (success ==> accepted != old(accepted) && pamAllows)
        && (refused ==> ok && !pamAllows)
        && (dead <==>
              || !pending || attempt == 0
              || (ok && config != [] && NoneTakes(Configured(), old(accepted), ev))
              || refused
              || (!success && !postponed && failures >= maxTries))
    {
      hide Progress, Keys, NoneTakes, ValidLists, AuthMethods;
      if !pending || attempt == 0 {
        dead := true;
        return;
      }
      postponed := res == 1 && sent;
      var authenticated := res == 0 && valid;
      if !postponed && !authenticated {
        postponed := next;
      }
      KeyboardIsPlain(device);
      UserauthFinish(authenticated, "keyboard-interactive", Some(device.Name()), rootAllowed, pamAllows, None);
    }

    /** The message handler that the dispatch table names. */
    method ServeOne(st: Step)
      requires Valid() && !dead && !success
      modifies this
      ensures Valid()
      ensures if accepted == old(accepted) then keys == old(keys)
              else && accepted == old(accepted) + [EventOf(st)] && keys == old(keys) + [KeyOf(st)]
                   && Approval(st) && valid
      ensures success ==> accepted != old(accepted) && PamAllows(st)
      ensures if st.Request?
              then && attempt == old(attempt) + 1 && valid == (if old(attempt) == 0 then st.validUser else old(valid))
                   && enabledThen == (if old(attempt) == 0 then old(enabled) else old(enabledThen))
                   && (!dead && old(attempt) > 0 ==> st.sameUser)
              else && attempt == old(attempt) && valid == old(valid) && enabledThen == old(enabledThen)
                   && (attempt == 0 ==> dead && accepted == old(accepted))
      // A request is accepted exactly when nothing stands against it.
      ensures st.Request? ==>
        (accepted != old(accepted) <==>
          && Approval(st) && valid && (old(attempt) == 0 || st.sameUser)
          && st.name in AuthMethods(gssapi) && st.name in old(enabled) && old(failures) < maxTries
          && (config == [] || exists s :: s in Configured() && Takes(s, old(accepted), EventOf(st)))
          && (if st.name == "publickey" || st.name == "hostbased"
              then && (st.name == "publickey" ==> st.tried.key !in old(prevKeys))
                   && |old(prevKeys)| < INT_MAX && st.tried.memory
              else !st.tried.postpone))
      ensures st.InfoResponse? ==>
        (accepted != old(accepted) <==>
          && Approval(st) && valid && attempt > 0
          && (config == [] || exists s :: s in Configured() && Takes(s, old(accepted), EventOf(st))))
      // A request that is not accepted counts as a failure, unless the verdict is still open, the server is to
      // blame, or it only asked what methods there are.
      ensures st.Request? && !dead ==>
        failures == old(failures) + if accepted != old(accepted) || postponed || serverFailure
          || (old(attempt) == 0 && st.name == "none") then 0 else 1
      ensures st.Request? && serverFailure && !dead ==> st.tried.serverFailure && st.name != "publickey" && st.name != "hostbased"
      ensures st.Request? && postponed && !dead ==>
        if st.name == "publickey" then !st.tried.haveSig && st.tried.good && st.tried.key !in old(prevKeys)
        else st.name != "hostbased" && st.tried.postpone
      // A method that no list is waiting for is not tried.
      ensures (&& st.Request? && config != [] && (old(attempt) == 0 ==> Configured() != []) && (old(attempt) > 0 ==> st.sameUser)
               && (forall s :: s in Configured() && NextEntry(s, old(accepted)).Some? ==>
                     MethodPart(NextEntry(s, old(accepted)).value) != st.name)) ==>
        && accepted == old(accepted) && prevKeys == old(prevKeys) && enabled == old(enabled) && !postponed
        && failures == old(failures) + (if old(attempt) == 0 && st.name == "none" then 0 else 1)
        && (dead <==> failures >= maxTries)
    {
      match st
      case Request(sameUser, validUser, name, tried) =>
        ghost var before := accepted;
        InputUserauthRequest(sameUser, validUser, name, tried);
        AcceptedExactly(before, name);
      case InfoResponse(pending, res, sent, next, device, rootAllowed, pamAllows) =>
        hide Verdict, Records, KeyFatal, Postpones, ValidLists, Progress, Keys, AuthMethods, Admitted, Takes;
        InputUserauthInfoResponse(pending, res, sent, next, device, rootAllowed, pamAllows);
    }

    /** A list that takes a method admits it, and one that waits for another method does not. */
    lemma AcceptedExactly(before: seq<Event>, name: string)
      ensures name in AuthMethods(gssapi) && config != [] ==>
        && ((exists s :: s in Configured() && Takes(s, before, Event(name, None))) ==>
             exists s :: s in Configured() && ListStartsWith(Rest(s, before), name, None) != MatchNone)
        && ((exists s :: s in Configured() && ListStartsWith(Rest(s, before), name, None) != MatchNone) ==>
             exists s :: s in Configured() && NextEntry(s, before).Some? && MethodPart(NextEntry(s, before).value) == name)
    {
      hide ListStartsWith, Rest, Takes, NextEntry, MethodPart, AuthMethods;
      if name in AuthMethods(gssapi) {
        forall i | 0 <= i < |Configured()|
          ensures var s := Configured()[i];
            && (Takes(s, before, Event(name, None)) ==> ListStartsWith(Rest(s, before), name, None) != MatchNone)
            && (ListStartsWith(Rest(s, before), name, None) != MatchNone ==>
                  NextEntry(s, before).Some? && MethodPart(NextEntry(s, before).value) == name)
        {
          ConfiguredPlain(i);
          WaitsFor(Configured()[i], before, name);
        }
      }
    }

    /**
     * The dispatch loop: messages are served until one succeeds or the connection ends. Whatever it accepts is
     * the event of a message, one of those served in this order, that carries the approval of its method.
     */
    method Run(steps: seq<Step>) returns (served: nat, ghost chosen: seq<nat>)
      requires Valid() && !dead && !success
      modifies this
      ensures Valid() && served <= |steps|
      ensures served < |steps| ==> dead || success
      ensures success <==> Entitled() && !refused
      ensures refused ==> dead
      ensures KeysDiffer(accepted, keys)
      ensures old(accepted) <= accepted && old(keys) <= keys
      ensures Approvals(steps[..served], chosen, accepted[|old(accepted)|..], keys[|old(keys)|..])
      ensures success ==> chosen != [] && 0 < served == chosen[|chosen| - 1] + 1 && PamAllows(steps[served - 1])
      ensures old(attempt) == 0 && chosen != [] ==> served > 0 && steps[0].Request? && steps[0].validUser
      ensures !dead ==> forall i :: 0 <= i < served && steps[i].Request? && (i > 0 || old(attempt) > 0) ==> steps[i].sameUser
    {
      hide Entitled, Approvals, KeysDiffer, Progress;
      served, chosen := 0, [];
      NoApprovals(accepted, keys);
      while served < |steps| && !dead && !success
        invariant Valid() && served <= |steps|
        invariant old(accepted) <= accepted && old(keys) <= keys
        invariant Approvals(steps[..served], chosen, accepted[|old(accepted)|..], keys[|old(keys)|..])
        invariant success ==> chosen != [] && 0 < served == chosen[|chosen| - 1] + 1 && PamAllows(steps[served - 1])
        invariant old(attempt) == 0 ==> if served == 0 then attempt == 0 && chosen == []
                                        else attempt > 0 || (dead && chosen == [])
        invariant old(attempt) == 0 && attempt > 0 ==> served > 0 && steps[0].Request? && valid == steps[0].validUser
        invariant chosen != [] ==> valid
        invariant old(attempt) > 0 ==> attempt > 0
        invariant !dead ==> forall i :: 0 <= i < served && steps[i].Request? && (i > 0 || old(attempt) > 0) ==> steps[i].sameUser
      {
        ghost var evs, ks := accepted[|old(accepted)|..], keys[|old(keys)|..];
        ghost var before := accepted;
        ServeOne(steps[served]);
        ApprovalsGrow(steps, served, chosen, evs, ks);
        if accepted != before {
          chosen := chosen + [served];
          assert accepted[|old(accepted)|..] == evs + [EventOf(steps[served])];
          assert keys[|old(keys)|..] == ks + [KeyOf(steps[served])];
        }
        served := served + 1;
      }
      SuccessExactly();
    }

    /**
     * The accepted events contain, in order, every entry of some configured list that was valid at the start;
     * with no list configured, one event was accepted.
     */
    ghost predicate Entitled()
      reads this`accepted, this`enabledThen
    {
      if config == [] then accepted != []
      else exists s :: s in config && ListValid(s, AuthMethods(gssapi), enabledThen, true) && Embeds(Entries(s), accepted)
    }

    /** In every state a run reaches, the user has been let in exactly when they are entitled to it and PAM did not object. */
    lemma SuccessExactly()
      requires Valid()
      ensures success <==> Entitled() && !refused
    {
      hide Complete, Rest, Entries, ListValid, AuthMethods, Embeds;
      forall s: string
        ensures s in Configured() <==> s in config && ListValid(s, AuthMethods(gssapi), enabledThen, true)
        ensures Complete(s, accepted) <==> Embeds(Entries(s), accepted)
        ensures accepted == [] ==> !Complete(s, accepted)
      {
        ValidListsExact(config, AuthMethods(gssapi), enabledThen, s);
        CompleteExactly(s, accepted);
        FreshList(s);
      }
    }

    /**
     * Each remaining text is the suffix of its configured list after the entries the accepted events consumed;
     * once a list is complete, those behind it may have missed the last event.
     */
    lemma SuffixesAndKeys(i: nat)
      requires Valid() && config != [] && attempt > 0 && i < |lists|
      ensures |lists| == |Configured()| && IsSuffix(lists[i], Configured()[i])
      ensures !success && !refused ==> lists[i] == Rest(Configured()[i], accepted)
      ensures lists[i] == Rest(Configured()[i], accepted)
           || (accepted != [] && lists[i] == Rest(Configured()[i], accepted[..|accepted| - 1]))
      ensures KeysDiffer(accepted, keys)
    {
      hide KeysDiffer, SomeComplete, Tracks;
      var s := Configured()[i];
      RestIsSuffix(s, Consumed(Entries(s), accepted));
      if accepted != [] {
        RestIsSuffix(s, Consumed(Entries(s), accepted[..|accepted| - 1]));
      }
    }
  }

  lemma KeyboardIsPlain(device: Device)
    ensures PlainEvent(Event("keyboard-interactive", Some(device.Name())))
  {
    assert PlainMethod("keyboard-interactive");
  }

  /**
   * Of the lists as the events left them, some admits a method without device and none takes it, exactly when
   * some starts with the method and a device and none with the bare method. This is when the branch of
   * `auth2_update_methods_lists` that should not happen does.
   */
  lemma FatalExactly(configured: seq<string>, evs: seq<Event>, name: string)
    requires PlainMethod(name) && forall s :: s in configured ==> NoEmptyEntry(s) && !Complete(s, evs)
    ensures (exists s :: s in configured && ListStartsWith(Rest(s, evs), name, None) != MatchNone)
            && NoneTakes(configured, evs, Event(name, None))
       <==> (exists s :: s in configured && name + ":" <= Rest(s, evs))
            && (forall s :: s in configured ==> Entries(Rest(s, evs))[0] != name)
  {
    hide Entries, Rest, ListStartsWith, RemoveMethod, Takes, Complete, NoEmptyEntry;
    var ev := Event(name, None);
    forall s | s in configured
      ensures Takes(s, evs, ev) <==> Entries(Rest(s, evs))[0] == name
      ensures ListStartsWith(Rest(s, evs), name, None) != MatchNone
         <==> Entries(Rest(s, evs))[0] == name || name + ":" <= Rest(s, evs)
    {
      UpdateList(s, evs, ev);
      RemoveExact(Rest(s, evs), ev);
      StartsWithExact(Rest(s, evs), ev);
      FirstEntryStarts(Rest(s, evs), name + ":");
    }
  }

  /** A remaining text admits a method exactly when its next entry is for that method. */
  lemma WaitsFor(s: string, evs: seq<Event>, name: string)
    requires PlainMethod(name) && NoEmptyEntry(s)
    ensures Takes(s, evs, Event(name, None)) ==> ListStartsWith(Rest(s, evs), name, None) != MatchNone
    ensures ListStartsWith(Rest(s, evs), name, None) != MatchNone <==>
            NextEntry(s, evs).Some? && MethodPart(NextEntry(s, evs).value) == name
  {
    hide ListStartsWith, Entries, Consumed, IndexOf;
    var es := Entries(s);
    var c := Consumed(es, evs);
    if c == |es| {
      assert es[c..] == [];
      NothingStarts(name);
    } else {
      EntriesHaveNoComma(s);
      assert forall e <- es[c..] :: e in es;
      EntriesJoin(es[c..]);
      assert es[c..][0] == es[c];
      StartsWithExact(Rest(s, evs), Event(name, None));
      PartIs(es[c], name);
    }
  }

  lemma NothingStarts(name: string)
    requires PlainMethod(name)
    ensures Join([]) == "" && ListStartsWith("", name, None) == MatchNone
  {
  }

  lemma PartIs(entry: string, name: string)
    requires ':' !in name
    ensures MethodPart(entry) == name <==> entry == name || name + ":" <= entry
  {
    hide IndexOf;
    var k := IndexOf(entry, ':');
    if k < |entry| {
      assert entry[..k + 1] == entry[..k] + ":";
    }
    if name + ":" <= entry {
      var rest := entry[|name| + 1..];
      assert entry == name + (":" + rest);
      IndexOfConcat(name, ':', ":" + rest);
      ColonAtOnce(rest);
    }
  }

  lemma ColonAtOnce(rest: string)
    ensures IndexOf(":" + rest, ':') == 0
  {
  }

  /** The devices can be told apart by the entries that ask for them. */
  lemma DeviceEntry(d: Device, d': Device)
    ensures Satisfies(Event("keyboard-interactive", Some(d.Name())), "keyboard-interactive:" + d'.Name()) <==> d == d'
  {
    var k := "keyboard-interactive:";
    assert "keyboard-interactive" + ":" == k;
    assert |k + d'.Name()| > |"keyboard-interactive"|;
    assert (k + d.Name())[|k|..] == d.Name() && (k + d'.Name())[|k|..] == d'.Name();
    NamesDiffer(d, d');
  }

  lemma NamesDiffer(d: Device, d': Device)
    ensures d.Name() == d'.Name() <==> d == d'
  {
    assert "bsdauth"[0] == 'b' && "pam"[0] == 'p' && "skey"[0] == 's';
  }

  /** Without an approval among the messages nobody is let in. */
  method NoApprovalNoSuccess(a: AuthContext, steps: seq<Step>)
    requires a.Valid() && !a.dead && !a.success && a.accepted == []
    requires forall st :: st in steps ==> !Approval(st)
    modifies a
    ensures !a.success
  {
    var _, _ := a.Run(steps);
  }

  /**
   * With no list configured, one message of a user decides: they are let in exactly when the method is known and
   * enabled, the user exists, the method approves without leaving the verdict open, the account check agrees, and
   * a key that has to be recorded can be.
   */
  method OneRequestExactly(gssapi: bool, enabled: set<string>, validUser: bool, name: string, t: Try)
    returns (a: AuthContext)
    ensures a.success <==> && name in AuthMethods(gssapi) && name in enabled && validUser
                           && Approval(Request(true, validUser, name, t)) && t.pamAllows
                           && (if name == "publickey" || name == "hostbased" then t.memory else !t.postpone)
    ensures a.success ==> a.accepted == [Event(name, None)]
  {
    hide AuthMethods;
    a := new AuthContext([], gssapi, 6, enabled);
    a.InputUserauthRequest(true, validUser, name, t);
    a.SuccessExactly();
  }

  /** A server that asks for a password by way of a device dies when a password is accepted. */
  method DeviceListDies(t: Try) returns (a: AuthContext)
    requires t.result && !t.postpone && t.rootAllowed
    ensures a.config == ["password:x"] && a.dead && !a.success
  {
    hide AuthMethods, ListStartsWith, Entries, IndexOf, Rest, Complete, AuthContext.Effects, KeyFatal, Records, KeysDiffer, Embeds;
    a := new AuthContext(["password:x"], false, 6, {"password"});
    DeviceListValid();
    a.InputUserauthRequest(true, true, "password", t);
    assert a.Configured() == ["password:x"] by {
      assert a.config[..0] == [];
    }
    FreshList("password:x");
    FatalExactly(["password:x"], [], "password");
    a.SuccessExactly();
  }

  lemma DeviceListValid()
    ensures ListValid("password:x", AuthMethods(false), {"password"}, true)
    ensures Entries("password:x") == ["password:x"] && "password:" <= "password:x"
    ensures PlainMethod("password") && NoEmptyEntry("password:x") && "password" in AuthMethods(false)
  {
    hide AuthMethods, Entries, MethodPart;
    EntriesOne("password:x");
    PasswordPart();
  }

  lemma PasswordPart()
    ensures MethodPart("password:x") == "password"
  {
    hide IndexOf;
    IndexOfConcat("password", ':', ":x");
    ColonFirst();
    assert "password" + ":x" == "password:x";
    assert "password:x"[..8] == "password";
  }

  lemma ColonFirst()
    ensures IndexOf(":x", ':') == 0
  {
  }

  ghost predicate IsSuffix(t: string, s: string) {
    exists k :: 0 <= k <= |s| && t == s[k..]
  }

  lemma CompleteExactly(s: string, evs: seq<Event>)
    ensures Complete(s, evs) <==> Embeds(Entries(s), evs)
  {
    ConsumedExact(Entries(s), evs);
  }

  lemma UpdateList(s: string, evs: seq<Event>, ev: Event)
    requires PlainEvent(ev) && NoEmptyEntry(s) && !Complete(s, evs)
    ensures var r := RemoveMethod(Rest(s, evs), ev);
      && (r.Some? <==> Takes(s, evs, ev))
      && Rest(s, evs + [ev]) == (if r.Some? then r.value else Rest(s, evs))
      && (Complete(s, evs + [ev]) <==> r.Some? && r.value == "")
  {
    hide Rest, RemoveMethod, Satisfies;
    UpdateOne(s, evs, ev);
  }
}
