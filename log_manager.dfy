/**
 * The log manager's tables: one connector slot per log level and a map
 * from registered module names to the most verbose level each one lets
 * through, together with the test its delivery thread applies to every
 * queued message.
 *
 * The level enumeration is not part of this model; only its order matters
 * here: LEVEL_ALL is the lowest value, LEVEL_LAST one past the highest and
 * LEVEL_DEF a level strictly between them. Locks always succeed; the queue,
 * the delivery thread and the formatting of the delivered line are left
 * out.
 */
module LogManager {

  const LEVEL_ALL: int := 0
  const LEVEL_DEF: int := 3
  const LEVEL_LAST: int := 6

  /** A level a module's maximum may be set to. */
  predicate SettableLevel(level: int)
  {
    LEVEL_ALL < level < LEVEL_LAST
  }

  /** A level RegisterConnector and UnregisterConnector accept. */
  predicate ConnectorLevel(level: int)
  {
    LEVEL_ALL <= level < LEVEL_LAST
  }

  /** Where delivered log lines go (a file, the console, ...). */
  class Connector {
    const name: string

    constructor (name: string)
      ensures this.name == name
    {
      this.name := name;
    }
  }

  /** The slots a connector registration at level writes: just that level's, or none for LEVEL_ALL. */
  function Slots(level: int): (r: set<int>)
    requires ConnectorLevel(level)
    ensures r == {} <==> level == LEVEL_ALL
    ensures forall l :: l in r ==> l == level
  {
    if level == LEVEL_ALL then {} else {level}
  }

  class Manager {
    var conn: array<Connector?>
    var maxLevel: map<string, int>

    ghost predicate Valid()
      reads this, conn
    {
      conn.Length == LEVEL_LAST &&
      conn[LEVEL_ALL] == null &&
      forall m :: m in maxLevel ==> SettableLevel(maxLevel[m])
    }

    /** A new manager has LEVEL_LAST empty connector slots and no registered module. */
    constructor ()
      ensures Valid() && fresh(conn) && maxLevel == map[]
      ensures forall l :: 0 <= l < conn.Length ==> conn[l] == null
    {
      conn := new Connector?[LEVEL_LAST](_ => null);
      maxLevel := map[];
    }

    /** RegisterModule: the module's maximum becomes LEVEL_DEF, whether or not it was registered before. */
    method RegisterModule(name: string) returns (status: bool)
      requires Valid()
      modifies this
      ensures Valid() && status && conn == old(conn)
      ensures maxLevel == old(maxLevel)[name := LEVEL_DEF]
    {
      maxLevel := maxLevel[name := LEVEL_DEF];
      status := true;
    }

    /** UnregisterModule: false, and no change, for a module that is not registered. */
    method UnregisterModule(name: string) returns (status: bool)
      requires Valid()
      modifies this
      ensures Valid() && conn == old(conn)
      ensures status <==> name in old(maxLevel)
      ensures maxLevel == old(maxLevel) - {name}
    {
      status := false;
      if name in maxLevel {
        maxLevel := maxLevel - {name};
        status := true;
      }
    }

    /**
     * RegisterConnector: refused for a null connector or a level outside
     * [LEVEL_ALL, LEVEL_LAST); otherwise the slots of Slots(level) get the
     * connector and the others are kept.
     */
    method RegisterConnector(level: int, c: Connector?) returns (status: bool)
      requires Valid()
      modifies conn
      ensures Valid()
      ensures status <==> ConnectorLevel(level) && c != null
      ensures forall l :: 0 <= l < conn.Length ==>
                conn[l] == if status && l in Slots(level) then c else old(conn[l])
    {
      status := false;
      if LEVEL_ALL <= level < LEVEL_LAST && c != null {
        var first, last := level, level;
        if level != LEVEL_ALL {
          first, last := level, level + 1;
        }
        var l := first;
        while l < last
          invariant first <= l <= last && (l == first || l == last)
          invariant forall k :: 0 <= k < conn.Length ==> conn[k] == if k < l && k in Slots(level) then c else old(conn[k])
        {
          conn[l] := c;
          l := l + 1;
        }
        status := true;
      }
    }

    /** UnregisterConnector: refused for a level outside [LEVEL_ALL, LEVEL_LAST); otherwise the slots of Slots(level) are emptied. */
    method UnregisterConnector(level: int) returns (status: bool)
      requires Valid()
      modifies conn
      ensures Valid()
      ensures status <==> ConnectorLevel(level)
      ensures forall l :: 0 <= l < conn.Length ==>
                conn[l] == if status && l in Slots(level) then null else old(conn[l])
    {
      status := false;
      if LEVEL_ALL <= level < LEVEL_LAST {
        var first, last := level, level;
        if level != LEVEL_ALL {
          first, last := level, level + 1;
        }
        var l := first;
        while l < last
          invariant first <= l <= last && (l == first || l == last)
          invariant forall k :: 0 <= k < conn.Length ==> conn[k] == if k < l && k in Slots(level) then null else old(conn[k])
        {
          conn[l] := null;
          l := l + 1;
        }
        status := true;
      }
    }

    /** GetMaxLevel: the module's maximum, or LEVEL_DEF for a module that is not registered. */
    function GetMaxLevel(name: string): (level: int)
      requires Valid()
      reads this, conn
      ensures SettableLevel(level)
      ensures name in maxLevel ==> level == maxLevel[name]
      ensures name !in maxLevel ==> level == LEVEL_DEF
    {
      if name in maxLevel then maxLevel[name] else LEVEL_DEF
    }

    /** SetMaxLevel: changes a registered module's maximum to a level strictly between LEVEL_ALL and LEVEL_LAST, else nothing. */
    method SetMaxLevel(name: string, level: int)
      requires Valid()
      modifies this
      ensures Valid() && conn == old(conn)
      ensures maxLevel == if name in old(maxLevel) && SettableLevel(level) then old(maxLevel)[name := level] else old(maxLevel)
    {
      if name in maxLevel && LEVEL_ALL < level < LEVEL_LAST {
        maxLevel := maxLevel[name := level];
      }
    }

    /**
     * The delivery test of the manager's thread: the connector a message of
     * module name at level is handed to, or null when it is dropped.
     */
    function Recipient(name: string, level: int): (c: Connector?)
      requires Valid() && ConnectorLevel(level)
      reads this, conn
      ensures c != null <==> name in maxLevel && level <= maxLevel[name] && conn[level] != null
      ensures c != null ==> c == conn[level]
    {
      if name in maxLevel && level <= maxLevel[name] then conn[level] else null
    }

    /** A message is delivered only at a level strictly above LEVEL_ALL and at most its module's maximum. */
    lemma DeliveredLevels(name: string, level: int)
      requires Valid() && ConnectorLevel(level)
      ensures Recipient(name, level) != null ==> LEVEL_ALL < level <= GetMaxLevel(name)
    {
    }
  }
}
