/** The refuge's state summary: the document, what each updater does to it, and the store that holds it. */
module StateDocument {
  import opened Options
  import opened Subsequences

  /** The stored document; parsing undoes dumping. */
  datatype Summary = Summary(
    alerts: map<string, int>,
    food: map<string, int>,
    medicine: map<string, int>,
    last_keepalived: string,
    last_event: string)

  /** std::stoi of the submitted text. */
  datatype Number = Int(value: int) | Invalid | OutOfRange

  datatype Update =
    | Create
    | Supply(supply_key: string, new_value: Number)
    | Alert(direction: string)
    | Emergency(timestamp: string, message: string)

  /** How a call ends: a document is written, nothing is, the process exits, or an exception escapes. */
  datatype Effect = Write(summary: Summary) | Nothing | Exit | Throw

  function Initial(): Summary {
    Summary(
      map["north_entry" := 0, "east_entry" := 0, "west_entry" := 0, "south_entry" := 0],
      map["meat" := 100, "vegetables" := 100, "fruits" := 100, "water" := 100],
      map["antibiotics" := 100, "analgesics" := 100, "bandages" := 100],
      "NONE", "NONE")
  }

  function EntryOf(direction: string): Option<string> {
    if direction == "north" then Some("north_entry")
    else if direction == "south" then Some("south_entry")
    else if direction == "east" then Some("east_entry")
    else if direction == "west" then Some("west_entry")
    else None
  }

  function WithoutNewlines(message: string): string {
    if message == [] then []
    else (if message[0] == '\n' then [] else [message[0]]) + WithoutNewlines(message[1..])
  }

  /** What an updater that read `summary` goes on to do. */
  function Apply(summary: Summary, u: Update): Effect {
    match u
    case Create => Write(Initial())
    case Supply(key, new_value) =>
      if key !in summary.food && key !in summary.medicine then Nothing
      else
        (match new_value
         case Invalid => Nothing
         case OutOfRange => Throw
         case Int(n) =>
           if n < 0 then Nothing
           else if key in summary.food then Write(summary.(food := summary.food[key := n]))
           else Write(summary.(medicine := summary.medicine[key := n])))
    case Alert(direction) =>
      (match EntryOf(direction)
       case None => Nothing
       case Some(entry) =>
         if entry !in summary.alerts then Exit
         else Write(summary.(alerts := summary.alerts[entry := summary.alerts[entry] + 1])))
    case Emergency(timestamp, message) =>
      Write(summary.(last_keepalived := timestamp, last_event := WithoutNewlines(message)))
  }

  /** The document after a call that ran alone. */
  function Written(summary: Summary, u: Update): Summary {
    match Apply(summary, u)
    case Write(d) => d
    case _ => summary
  }

  /** The document after calls that ran one after another. */
  function Serial(summary: Summary, us: seq<Update>): Summary {
    if us == [] then summary else Written(Serial(summary, us[..|us| - 1]), us[|us| - 1])
  }

  /** The keys every reader of the document relies on. */
  ghost predicate SameKeys(summary: Summary) {
    && summary.alerts.Keys == Initial().alerts.Keys
    && summary.food.Keys == Initial().food.Keys
    && summary.medicine.Keys == Initial().medicine.Keys
  }

  ghost predicate WellFormed(summary: Summary) {
    && SameKeys(summary)
    && (forall k :: k in summary.food ==> summary.food[k] >= 0)
    && (forall k :: k in summary.medicine ==> summary.medicine[k] >= 0)
    && (forall k :: k in summary.alerts ==> summary.alerts[k] >= 0)
  }

  lemma InitialIsWellFormed()
    ensures WellFormed(Initial())
  {
  }

  lemma EntriesAreKeys(direction: string)
    ensures EntryOf(direction).Some? ==> EntryOf(direction).value in Initial().alerts
  {
  }

  /** Whatever the update and however it ends, it leaves a well-formed document, and no counter it needs is missing. */
  lemma UpdateKeepsWellFormed(summary: Summary, u: Update)
    requires WellFormed(summary)
    ensures WellFormed(Written(summary, u)) && Apply(summary, u) != Exit
  {
    hide Initial, EntryOf, WithoutNewlines;
    InitialIsWellFormed();
    if u.Alert? {
      EntriesAreKeys(u.direction);
    }
    var d := Written(summary, u);
    if u != Create {
      assert d.food.Keys == summary.food.Keys;
      assert d.medicine.Keys == summary.medicine.Keys;
      assert d.alerts.Keys == summary.alerts.Keys;
    }
  }

  lemma {:induction false} SerialKeepsWellFormed(summary: Summary, us: seq<Update>)
    requires WellFormed(summary)
    ensures WellFormed(Serial(summary, us))
  {
    if us != [] {
      SerialKeepsWellFormed(summary, us[..|us| - 1]);
      UpdateKeepsWellFormed(Serial(summary, us[..|us| - 1]), us[|us| - 1]);
    }
  }

  /** Number of alerts for an entry among the updates. */
  function AlertCount(us: seq<Update>, entry: string): nat {
    if us == [] then 0
    else
      var u := us[|us| - 1];
      AlertCount(us[..|us| - 1], entry) + if u.Alert? && EntryOf(u.direction) == Some(entry) then 1 else 0
  }

  function Counter(summary: Summary, entry: string): int {
    if entry in summary.alerts then summary.alerts[entry] else 0
  }

  lemma AlertCounts(summary: Summary, u: Update, entry: string)
    requires WellFormed(summary) && entry in summary.alerts
    ensures u != Create ==> Counter(Written(summary, u), entry) ==
                            Counter(summary, entry) + if u.Alert? && EntryOf(u.direction) == Some(entry) then 1 else 0
    ensures u == Create ==> Counter(Written(summary, u), entry) == 0
  {
    if u == Create {
      InitialCountersAreZero(entry);
    } else if u.Alert? {
      EntriesAreKeys(u.direction);
      hide Initial, EntryOf;
    }
  }

  lemma InitialCountersAreZero(entry: string)
    ensures Counter(Initial(), entry) == 0
  {
  }

  /** In serial runs each counter grows by exactly the alerts for its entry, unless the document is created anew. */
  lemma {:induction false} SerialCountsAlerts(summary: Summary, us: seq<Update>, entry: string)
    requires WellFormed(summary) && entry in summary.alerts
    ensures entry in Serial(summary, us).alerts
    ensures 0 <= Counter(Serial(summary, us), entry) <= Counter(summary, entry) + AlertCount(us, entry)
    ensures Create !in us ==> Counter(Serial(summary, us), entry) == Counter(summary, entry) + AlertCount(us, entry)
  {
    hide Initial, EntryOf, Written;
    SerialKeepsWellFormed(summary, us);
    if us != [] {
      var before, u := us[..|us| - 1], us[|us| - 1];
      SerialCountsAlerts(summary, before, entry);
      SerialKeepsWellFormed(summary, before);
      AlertCounts(Serial(summary, before), u, entry);
      assert us == before + [u];
    }
  }

  // ---- The updates entry by entry. ----

  /** An alert raises the counter of its own direction by one and nothing else; other texts change nothing. */
  lemma AlertRaises(summary: Summary, direction: string)
    requires WellFormed(summary)
    ensures "north_entry" in summary.alerts && "south_entry" in summary.alerts
    ensures "east_entry" in summary.alerts && "west_entry" in summary.alerts
    ensures direction == "north" ==>
              Written(summary, Alert(direction)) ==
              summary.(alerts := summary.alerts["north_entry" := summary.alerts["north_entry"] + 1])
    ensures direction == "south" ==>
              Written(summary, Alert(direction)) ==
              summary.(alerts := summary.alerts["south_entry" := summary.alerts["south_entry"] + 1])
    ensures direction == "east" ==>
              Written(summary, Alert(direction)) ==
              summary.(alerts := summary.alerts["east_entry" := summary.alerts["east_entry"] + 1])
    ensures direction == "west" ==>
              Written(summary, Alert(direction)) ==
              summary.(alerts := summary.alerts["west_entry" := summary.alerts["west_entry"] + 1])
    ensures direction !in ["north", "south", "east", "west"] ==> Apply(summary, Alert(direction)) == Nothing
  {
    EntriesByName();
    InitialKeys();
    hide Initial, EntryOf;
  }

  lemma EntriesByName()
    ensures EntryOf("north") == Some("north_entry") && EntryOf("south") == Some("south_entry")
    ensures EntryOf("east") == Some("east_entry") && EntryOf("west") == Some("west_entry")
    ensures forall d :: d !in ["north", "south", "east", "west"] ==> EntryOf(d) == None
  {
  }

  /** An alert counts once, for the entry of its own direction. */
  lemma AlertCountGrows(us: seq<Update>, u: Update, entry: string)
    ensures AlertCount([], entry) == 0
    ensures AlertCount(us + [u], entry) == AlertCount(us, entry) +
            if (u == Alert("north") && entry == "north_entry") || (u == Alert("south") && entry == "south_entry") ||
               (u == Alert("east") && entry == "east_entry") || (u == Alert("west") && entry == "west_entry")
            then 1 else 0
  {
    assert (us + [u])[..|us|] == us;
    EntriesByName();
    hide EntryOf;
  }

  lemma InitialKeys()
    ensures Initial().alerts.Keys == {"north_entry", "east_entry", "west_entry", "south_entry"}
    ensures Initial().food.Keys == {"meat", "vegetables", "fruits", "water"}
    ensures Initial().medicine.Keys == {"antibiotics", "analgesics", "bandages"}
  {
  }

  /** A new document starts with all counters at 0, 100 of every supply, and no emergency. */
  lemma InitialAmounts(summary: Summary)
    ensures var d := Written(summary, Create);
            && d.alerts.Keys == {"north_entry", "east_entry", "west_entry", "south_entry"}
            && d.food.Keys == {"meat", "vegetables", "fruits", "water"}
            && d.medicine.Keys == {"antibiotics", "analgesics", "bandages"}
            && (forall k :: k in d.alerts ==> d.alerts[k] == 0)
            && (forall k :: k in d.food ==> d.food[k] == 100)
            && (forall k :: k in d.medicine ==> d.medicine[k] == 100)
            && d.last_keepalived == "NONE" && d.last_event == "NONE"
  {
    InitialKeys();
  }

  /**
   * How a supply update ends: an unknown name returns; then a text that is no number or a negative number returns, a
   * number too large for an int throws, and any other is stored under the name, and nowhere else.
   */
  lemma SupplyEndings(summary: Summary, key: string, text: Number)
    ensures key !in summary.food && key !in summary.medicine ==> Apply(summary, Supply(key, text)) == Nothing
    ensures key in summary.food || key in summary.medicine ==>
              && (text == Invalid ==> Apply(summary, Supply(key, text)) == Nothing)
              && (text == OutOfRange ==> Apply(summary, Supply(key, text)) == Throw)
              && (text.Int? && text.value < 0 ==> Apply(summary, Supply(key, text)) == Nothing)
    ensures key in summary.food && text.Int? && text.value >= 0 ==>
              Apply(summary, Supply(key, text)) == Write(summary.(food := summary.food[key := text.value]))
    ensures key !in summary.food && key in summary.medicine && text.Int? && text.value >= 0 ==>
              Apply(summary, Supply(key, text)) == Write(summary.(medicine := summary.medicine[key := text.value]))
  {
  }

  /** The message without its newlines: every other character stays, as often and in the same order. */
  lemma {:induction false} OnlyNewlinesDropped(message: string)
    ensures Subsequence(WithoutNewlines(message), message)
    ensures multiset(WithoutNewlines(message)) == multiset(message)['\n' := 0]
  {
    if message != [] {
      OnlyNewlinesDropped(message[1..]);
      assert message == [message[0]] + message[1..];
      var rest := WithoutNewlines(message[1..]);
      if message[0] == '\n' {
        assert WithoutNewlines(message) == rest;
        SubsequenceSkips(rest, message);
      } else {
        assert WithoutNewlines(message) == [message[0]] + rest;
        assert ([message[0]] + rest)[1..] == rest;
      }
    }
  }

  datatype Section = Supplies | Alerts | Emergencies | Whole

  function SectionOf(u: Update): Section {
    match u
    case Create => Whole
    case Supply(_, _) => Supplies
    case Alert(_) => Alerts
    case Emergency(_, _) => Emergencies
  }

  /** Updates of different sections, of different supplies, and alerts among themselves commute on every document. */
  lemma UpdatesCommute(summary: Summary, u: Update, v: Update)
    requires u != Create && v != Create
    requires SectionOf(u) != SectionOf(v) || (u.Supply? && v.Supply? && u.supply_key != v.supply_key)
             || (u.Alert? && v.Alert?)
    ensures Written(Written(summary, u), v) == Written(Written(summary, v), u)
  {
    if u.Supply? && v.Supply? {
      SuppliesCommute(summary, u, v);
    } else if u.Alert? && v.Alert? {
      AlertsCommute(summary, u, v);
    } else {
      SectionsCommute(summary, u, v);
    }
  }

  /** The number an accepted supply update stores; anything else stores nothing. */
  function Accepted(u: Update): Option<int>
    requires u.Supply?
  {
    if u.new_value.Int? && u.new_value.value >= 0 then Some(u.new_value.value) else None
  }

  function Stored(category: map<string, int>, u: Update): map<string, int>
    requires u.Supply?
  {
    if u.supply_key in category && Accepted(u).Some? then category[u.supply_key := Accepted(u).value] else category
  }

  lemma SupplyStores(summary: Summary, u: Update)
    requires u.Supply?
    ensures Written(summary, u) ==
            summary.(food := Stored(summary.food, u),
                     medicine := if u.supply_key in summary.food then summary.medicine else Stored(summary.medicine, u))
  {
  }

  lemma StoredCommutes(category: map<string, int>, u: Update, v: Update)
    requires u.Supply? && v.Supply? && u.supply_key != v.supply_key
    ensures Stored(Stored(category, u), v) == Stored(Stored(category, v), u)
    ensures Stored(category, u).Keys == category.Keys
  {
    assert Stored(category, u).Keys == category.Keys && Stored(category, v).Keys == category.Keys;
    assert Stored(Stored(category, u), v).Keys == category.Keys == Stored(Stored(category, v), u).Keys;
  }

  lemma SuppliesCommute(summary: Summary, u: Update, v: Update)
    requires u.Supply? && v.Supply? && u.supply_key != v.supply_key
    ensures Written(Written(summary, u), v) == Written(Written(summary, v), u)
  {
    SupplyStores(summary, u);
    SupplyStores(summary, v);
    SupplyStores(Written(summary, u), v);
    SupplyStores(Written(summary, v), u);
    StoredCommutes(summary.food, u, v);
    StoredCommutes(summary.food, v, u);
    StoredCommutes(summary.medicine, u, v);
    hide Written, Stored;
  }

  function Raised(alerts: map<string, int>, direction: string): map<string, int> {
    var entry := EntryOf(direction);
    if entry.Some? && entry.value in alerts then alerts[entry.value := alerts[entry.value] + 1] else alerts
  }

  lemma AlertStores(summary: Summary, u: Update)
    requires u.Alert?
    ensures Written(summary, u) == summary.(alerts := Raised(summary.alerts, u.direction))
  {
    hide EntryOf;
  }

  lemma EmergencyStores(summary: Summary, u: Update)
    requires u.Emergency?
    ensures Written(summary, u) == summary.(last_keepalived := u.timestamp, last_event := WithoutNewlines(u.message))
  {
  }

  lemma RaisesCommute(alerts: map<string, int>, d: string, e: string)
    ensures Raised(Raised(alerts, d), e) == Raised(Raised(alerts, e), d)
  {
    hide EntryOf;
    assert Raised(Raised(alerts, d), e).Keys == alerts.Keys == Raised(Raised(alerts, e), d).Keys;
  }

  lemma AlertsCommute(summary: Summary, u: Update, v: Update)
    requires u.Alert? && v.Alert?
    ensures Written(Written(summary, u), v) == Written(Written(summary, v), u)
  {
    AlertStores(summary, u);
    AlertStores(summary, v);
    AlertStores(Written(summary, u), v);
    AlertStores(Written(summary, v), u);
    RaisesCommute(summary.alerts, u.direction, v.direction);
    hide Written, Raised;
  }

  lemma Stores(summary: Summary, u: Update)
    requires u != Create
    ensures Written(summary, u) ==
            match u {
              case Supply(_, _) =>
                summary.(food := Stored(summary.food, u),
                         medicine := if u.supply_key in summary.food then summary.medicine else Stored(summary.medicine, u))
              case Alert(direction) => summary.(alerts := Raised(summary.alerts, direction))
              case Emergency(timestamp, message) =>
                summary.(last_keepalived := timestamp, last_event := WithoutNewlines(message))
            }
  {
    match u
    case Supply(_, _) => SupplyStores(summary, u);
    case Alert(_) => AlertStores(summary, u);
    case Emergency(_, _) => EmergencyStores(summary, u);
  }

  lemma SectionsCommute(summary: Summary, u: Update, v: Update)
    requires u != Create && v != Create && SectionOf(u) != SectionOf(v)
    ensures Written(Written(summary, u), v) == Written(Written(summary, v), u)
  {
    Stores(summary, u);
    Stores(summary, v);
    Stores(Written(summary, u), v);
    Stores(Written(summary, v), u);
    hide Written, Stored, Raised, WithoutNewlines;
  }

  /** The database entry "state_summary"; every call reads it first and gives up when it is missing. */
  class StateStore {
    var state_summary: Option<Summary>

    constructor ()
      ensures state_summary == None
    {
      state_summary := None;
    }

    method CreateStateSummary()
      modifies this
      ensures state_summary == Some(Initial())
    {
      state_summary := Some(Initial());
    }

    method ModifySupplies(supply_key: string, new_value: Number) returns (effect: Effect)
      modifies this
      ensures old(state_summary).None? ==> state_summary == None && effect == Nothing
      ensures old(state_summary).Some? ==>
                && effect == Apply(old(state_summary).value, Supply(supply_key, new_value))
                && state_summary == Some(Written(old(state_summary).value, Supply(supply_key, new_value)))
    {
      if state_summary.None? {
        return Nothing;
      }
      var summary := state_summary.value;
      var categories := ["food", "medicine"];
      for i := 0 to |categories|
        invariant state_summary == old(state_summary)
        invariant i >= 1 ==> supply_key !in summary.food
        invariant i >= 2 ==> supply_key !in summary.medicine
      {
        var category := categories[i];
        if supply_key in (if category == "food" then summary.food else summary.medicine) {
          match new_value {
            case Invalid => return Nothing;
            case OutOfRange => return Throw;
            case Int(value_int) =>
              if value_int < 0 {
                return Nothing;
              }
              if category == "food" {
                summary := summary.(food := summary.food[supply_key := value_int]);
              } else {
                summary := summary.(medicine := summary.medicine[supply_key := value_int]);
              }
              state_summary := Some(summary);
              return Write(summary);
          }
        }
      }
      return Nothing;
    }

    method ModifyAlerts(alert_string: string) returns (effect: Effect)
      modifies this
      ensures old(state_summary).None? ==> state_summary == None && effect == Nothing
      ensures old(state_summary).Some? ==>
                && effect == Apply(old(state_summary).value, Alert(alert_string))
                && state_summary == Some(Written(old(state_summary).value, Alert(alert_string)))
    {
      if state_summary.None? {
        return Nothing;
      }
      var summary := state_summary.value;
      var alerts := summary.alerts;
      var entry;
      if alert_string == "north" {
        entry := "north_entry";
      } else if alert_string == "south" {
        entry := "south_entry";
      } else if alert_string == "east" {
        entry := "east_entry";
      } else if alert_string == "west" {
        entry := "west_entry";
      } else {
        return Nothing;
      }
      if entry !in alerts {
        return Exit;
      }
      alerts := alerts[entry := alerts[entry] + 1];
      summary := summary.(alerts := alerts);
      state_summary := Some(summary);
      return Write(summary);
    }

    method ModifyEmergencies(timestamp: string, message: string) returns (effect: Effect)
      modifies this
      ensures old(state_summary).None? ==> state_summary == None && effect == Nothing
      ensures old(state_summary).Some? ==>
                && effect == Apply(old(state_summary).value, Emergency(timestamp, message))
                && state_summary == Some(Written(old(state_summary).value, Emergency(timestamp, message)))
    {
      if state_summary.None? {
        return Nothing;
      }
      var summary := state_summary.value;
      summary := summary.(last_keepalived := timestamp);
      summary := summary.(last_event := WithoutNewlines(message));
      state_summary := Some(summary);
      return Write(summary);
    }
  }
}
