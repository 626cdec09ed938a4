/**
 * A message's identifier and type, kept as strings in the message's
 * key/value store under the keys "Id" and "Type". The store itself (a
 * property tree) is not part of this model: it is a map from key to string
 * here, and reading a key that is absent gives the empty string.
 */
module MessageStore {

  /** The message types; Err is what GetType reports for a string it does not know, and SetType refuses it. */
  datatype MessageType = Err | None | Auth | Hello | Ack | Bye | Cfg | Cmd | Data

  const KEY_ID: string := "Id"
  const KEY_TYPE: string := "Type"

  /** The string stored for a type; None is stored as the empty string. */
  function TypeString(t: MessageType): string
    requires t != Err
  {
    match t
    case None => ""
    case Auth => "Auth"
    case Hello => "Hello"
    case Ack => "Ack"
    case Bye => "Bye"
    case Cfg => "Cfg"
    case Cmd => "Cmd"
    case Data => "Data"
  }

  /** GetType's reading of a stored string: a known string gives its type, any other gives Err. */
  function ParseType(s: string): (t: MessageType)
    ensures t != Err ==> TypeString(t) == s
  {
    if s == "Auth" then Auth
    else if s == "Hello" then Hello
    else if s == "Ack" then Ack
    else if s == "Bye" then Bye
    else if s == "Cfg" then Cfg
    else if s == "Cmd" then Cmd
    else if s == "Data" then Data
    else if s == "" then None
    else Err
  }

  /** Every type SetType accepts is read back as itself by GetType. */
  lemma TypeRoundTrip(t: MessageType)
    requires t != Err
    ensures ParseType(TypeString(t)) == t
  {
  }

  /** GetType reports Err exactly for the strings that are not the name of a type. */
  lemma ParseTypeErr(s: string)
    ensures ParseType(s) == Err <==> forall t: MessageType :: t != Err ==> TypeString(t) != s
  {
    if ParseType(s) != Err {
      assert TypeString(ParseType(s)) == s;
    }
  }

  /** The value stored under key, or the empty string. */
  function Lookup(store: map<string, string>, key: string): string
  {
    if key in store then store[key] else ""
  }

  /**
   * SetType as written: the store is updated for every type but Err, and
   * the result is false whatever happened.
   */
  function SetTypeAsWritten(store: map<string, string>, t: MessageType): (r: (bool, map<string, string>))
    ensures !r.0
    ensures t != Err ==> ParseType(Lookup(r.1, KEY_TYPE)) == t
    ensures t == Err ==> r.1 == store
    ensures Lookup(r.1, KEY_ID) == Lookup(store, KEY_ID)
  {
    (false, if t == Err then store else store[KEY_TYPE := TypeString(t)])
  }

  /** As written, setting the type Hello succeeds (GetType then gives Hello) but SetType reports failure. */
  lemma SetTypeReportsFailure()
    ensures var (ok, store) := SetTypeAsWritten(map[], Hello);
            !ok && ParseType(Lookup(store, KEY_TYPE)) == Hello
  {
  }

  class Message {
    var store: map<string, string>

    /** The identifier stored under "Id"; the empty string when there is none. */
    function GetId(): (id: string)
      reads this
      ensures KEY_ID in store ==> id == store[KEY_ID]
      ensures KEY_ID !in store ==> id == ""
    {
      Lookup(store, KEY_ID)
    }

    /**
     * The type whose string is stored under "Type" (an absent key reads as
     * None); Err exactly when the stored string names no type.
     */
    function GetType(): (t: MessageType)
      reads this
      ensures t != Err ==> TypeString(t) == Lookup(store, KEY_TYPE)
      ensures t == Err <==> forall u: MessageType :: u != Err ==> TypeString(u) != Lookup(store, KEY_TYPE)
    {
      ParseTypeErr(Lookup(store, KEY_TYPE));
      ParseType(Lookup(store, KEY_TYPE))
    }

    /** A new message has the empty identifier and type None. */
    constructor ()
      ensures GetId() == "" && GetType() == None
      ensures store == map[KEY_ID := "", KEY_TYPE := ""]
    {
      store := map[KEY_ID := "", KEY_TYPE := ""];
    }

    /** SetId: always succeeds; GetId then gives id and the type is untouched. */
    method SetId(id: string) returns (status: bool)
      modifies this
      ensures status && store == old(store)[KEY_ID := id]
      ensures GetId() == id && GetType() == old(GetType())
    {
      store := store[KEY_ID := id];
      status := true;
    }

    /**
     * SetType: true, and GetType then gives t, for every type but Err; for
     * Err it is false and nothing changes. The identifier is untouched.
     */
    method SetType(t: MessageType) returns (status: bool)
      modifies this
      ensures status <==> t != Err
      ensures store == if t == Err then old(store) else old(store)[KEY_TYPE := TypeString(t)]
      ensures status ==> GetType() == t
      ensures GetId() == old(GetId())
    {
      status := true;
      match t {
        case Err => status := false;
        case _ =>
          store := store[KEY_TYPE := TypeString(t)];
          TypeRoundTrip(t);
      }
    }
  }
}
