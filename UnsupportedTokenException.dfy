/**
 * `UnsupportedTokenException`: the failure a filter formatter raises for a token it
 * cannot render. It carries the offending token and keeps it across a save and restore
 * through the name/value entry list of a `SerializationInfo`.
 */
module UnsupportedTokens {
  import opened Wrappers
  import opened FilterTrees

  const UnsupportedTokenEntryName: string := "UnsupportedToken"
  const ClassNameEntryName: string := "ClassName"
  const MessageEntryName: string := "Message"
  const HResultEntryName: string := "HResult"

  /** The class name the exception saves itself under. */
  const ExceptionClassName: string := "UnsupportedTokenException"

  /** `COR_E_EXCEPTION`, the HResult every .NET `Exception` starts with. */
  const DefaultHResult: int := -0x7FEC_EB00

  /**
   * An entry's value: a token (or null), a text (or null), or a number, such as the
   * base exception's class name, message and HResult.
   */
  datatype EntryValue = TokenValue(token: Option<Token>) | TextValue(text: Option<string>) | NumberValue(n: int)

  datatype Entry = Entry(name: string, value: EntryValue)

  /**
   * Why restoring fails: `ArgumentNullException` for a null `SerializationInfo`,
   * `SerializationException` when the base exception finds no class name or an HResult
   * of 0, and `InvalidCastException` for an "UnsupportedToken" entry holding a non-null
   * value other than a token.
   */
  datatype RestoreError = ArgumentNull | SerializationError | InvalidCast(entryIndex: nat)

  /** What a successful restore yields. */
  datatype RestoredState = RestoredState(message: string, hResult: int, token: Option<Token>)

  /** `SerializationInfo`: the list of named entries an exception is saved to. */
  class SerializationInfo {
    var entries: seq<Entry>

    constructor ()
      ensures entries == []
    {
      entries := [];
    }

    constructor FromEntries(es: seq<Entry>)
      ensures entries == es
    {
      entries := es;
    }

    /** `AddValue(name, value)`: appends one entry. */
    method AddValue(name: string, value: EntryValue)
      modifies this
      ensures entries == old(entries) + [Entry(name, value)]
    {
      entries := entries + [Entry(name, value)];
    }
  }

  /** The message the token-carrying constructor gives the exception; it names the token's type. */
  function MessageFor(token: Token): (m: string)
    ensures exists i :: OccursAt(token.tokenType.name, m, i)
  {
    var prefix := "Token type '";
    var m := prefix + token.tokenType.name + "' is not supported by this formater.";
    assert OccursAt(token.tokenType.name, m, |prefix|);
    m
  }

  /** `part` occurs in `whole` starting at position `i`. */
  predicate OccursAt(part: string, whole: string, i: int) {
    0 <= i <= |whole| - |part| && whole[i..i + |part|] == part
  }

  /**
   * The entries the base exception writes before the token: its class name, its message
   * and its HResult. The base's other entries (data, inner exception, help link, stack
   * trace, source) are not represented; none is named "UnsupportedToken".
   */
  function BaseObjectData(message: string, hResult: int): seq<Entry> {
    [Entry(ClassNameEntryName, TextValue(Some(ExceptionClassName))),
     Entry(MessageEntryName, TextValue(Some(message))),
     Entry(HResultEntryName, NumberValue(hResult))]
  }

  /** The value of the last entry with the given name, if any. */
  function LastEntry(es: seq<Entry>, name: string): (r: Option<EntryValue>)
    ensures r.None? <==> forall i :: 0 <= i < |es| ==> es[i].name != name
    ensures r.Some? ==> Entry(name, r.value) in es
  {
    if es == [] then None
    else if es[|es| - 1].name == name then Some(es[|es| - 1].value)
    else
      var r := LastEntry(es[..|es| - 1], name);
      assert forall e :: e in es[..|es| - 1] ==> e in es;
      r
  }

  /** The message the base exception restores: the "Message" entry's text, "" when there is none. */
  function RestoredMessage(es: seq<Entry>): string {
    match LastEntry(es, MessageEntryName)
    case Some(TextValue(Some(m))) => m
    case _ => ""
  }

  /**
   * The base exception's deserialising constructor: it fails unless a non-null class
   * name and a non-zero HResult were saved, and otherwise restores the message and the
   * HResult.
   */
  function BaseRestore(es: seq<Entry>): Result<(string, int), RestoreError> {
    match (LastEntry(es, ClassNameEntryName), LastEntry(es, HResultEntryName))
    case (Some(TextValue(Some(_))), Some(NumberValue(h))) =>
      if h == 0 then Failure(SerializationError) else Success((RestoredMessage(es), h))
    case _ => Failure(SerializationError)
  }

  /**
   * What the deserialising constructor's loop leaves in `UnsupportedToken` after the
   * entries `es`: the value of the last entry named "UnsupportedToken", null when there
   * is none, or the cast failure of the first such entry that holds a non-null value
   * other than a token (a null value casts to a null token).
   */
  function RestoredToken(es: seq<Entry>): Result<Option<Token>, RestoreError> {
    if es == [] then Success(None)
    else
      match RestoredToken(es[..|es| - 1])
      case Failure(e) => Failure(e)
      case Success(previous) =>
        var last := es[|es| - 1];
        if last.name != UnsupportedTokenEntryName then Success(previous)
        else if last.value.TokenValue? then Success(last.value.token)
        else if last.value.TextValue? && last.value.text.None? then Success(None)
        else Failure(InvalidCast(|es| - 1))
  }

  /** The whole restore: the base part first, then the token loop. */
  function Restore(es: seq<Entry>): Result<RestoredState, RestoreError> {
    match BaseRestore(es)
    case Failure(e) => Failure(e)
    case Success((message, h)) =>
      match RestoredToken(es)
      case Failure(e) => Failure(e)
      case Success(token) => Success(RestoredState(message, h, token))
  }

  /** The deserialising constructor's loop over the entries. */
  method ReadUnsupportedToken(es: seq<Entry>) returns (r: Result<Option<Token>, RestoreError>)
    ensures r == RestoredToken(es)
  {
    var token: Option<Token> := None;
    var i := 0;
    while i < |es|
      invariant 0 <= i <= |es|
      invariant RestoredToken(es[..i]) == Success(token)
    {
      assert es[..i + 1][..i] == es[..i];
      var entry := es[i];
      if entry.name == UnsupportedTokenEntryName {
        if entry.value.TokenValue? {
          token := entry.value.token;
        } else if entry.value.TextValue? && entry.value.text.None? {
          token := None;
        } else {
          assert RestoredToken(es[..i + 1]) == Failure(InvalidCast(i));
          RestoredTokenFailureSticks(es, i + 1);
          return Failure(InvalidCast(i));
        }
      }
      i := i + 1;
    }
    assert es[..i] == es;
    r := Success(token);
  }

  /** Once a prefix fails to cast, the whole entry list does. */
  lemma {:induction false} RestoredTokenFailureSticks(es: seq<Entry>, n: nat)
    requires n <= |es| && RestoredToken(es[..n]).Failure?
    ensures RestoredToken(es) == RestoredToken(es[..n])
    decreases |es| - n
  {
    if n == |es| {
      assert es[..n] == es;
    } else {
      assert es[..n + 1][..n] == es[..n];
      RestoredTokenFailureSticks(es, n + 1);
    }
  }

  /** Without an "UnsupportedToken" entry, the restored token stays null. */
  lemma {:induction false} RestoredTokenAbsent(es: seq<Entry>)
    requires forall i :: 0 <= i < |es| ==> es[i].name != UnsupportedTokenEntryName
    ensures RestoredToken(es) == Success(None)
  {
    if es != [] {
      RestoredTokenAbsent(es[..|es| - 1]);
    }
  }

  /** A token entry appended after entries that restore cleanly is the one restored: the last one wins. */
  lemma LastTokenEntryWins(es: seq<Entry>, token: Option<Token>, rest: seq<Entry>)
    requires RestoredToken(es).Success?
    requires forall i :: 0 <= i < |rest| ==> rest[i].name != UnsupportedTokenEntryName
    ensures RestoredToken(es + [Entry(UnsupportedTokenEntryName, TokenValue(token))] + rest) == Success(token)
  {
    var saved := es + [Entry(UnsupportedTokenEntryName, TokenValue(token))];
    assert saved[..|saved| - 1] == es;
    RestoredTokenSuffix(saved, rest);
  }

  lemma {:induction false} RestoredTokenSuffix(es: seq<Entry>, rest: seq<Entry>)
    requires forall i :: 0 <= i < |rest| ==> rest[i].name != UnsupportedTokenEntryName
    ensures RestoredToken(es + rest) == RestoredToken(es)
  {
    if rest != [] {
      var shorter := rest[..|rest| - 1];
      assert (es + rest)[..|es + rest| - 1] == es + shorter;
      RestoredTokenSuffix(es, shorter);
    } else {
      assert es + rest == es;
    }
  }

  /** Appending one entry makes it the last of its name and leaves other names alone. */
  lemma LastEntryAppend(es: seq<Entry>, e: Entry, name: string)
    ensures LastEntry(es + [e], name) == if e.name == name then Some(e.value) else LastEntry(es, name)
  {
    assert (es + [e])[..|es|] == es;
  }

  /** Without a class name entry the base exception refuses to restore, whatever else was saved. */
  lemma RestoreNeedsClassName(es: seq<Entry>)
    requires forall i :: 0 <= i < |es| ==> es[i].name != ClassNameEntryName
    ensures Restore(es) == Failure(SerializationError)
  {
  }

  /** A saved HResult of 0 makes the base exception refuse to restore. */
  lemma RestoreNeedsHResult(es: seq<Entry>)
    ensures Restore(es + [Entry(HResultEntryName, NumberValue(0))]) == Failure(SerializationError)
  {
    LastEntryAppend(es, Entry(HResultEntryName, NumberValue(0)), HResultEntryName);
  }

  /** After the base entries and a token entry, each base entry is the last of its name. */
  lemma SavedBaseEntriesLast(before: seq<Entry>, message: string, hResult: int, tokenEntry: Entry)
    requires tokenEntry.name == UnsupportedTokenEntryName
    ensures var saved := before + BaseObjectData(message, hResult) + [tokenEntry];
      LastEntry(saved, ClassNameEntryName) == Some(TextValue(Some(ExceptionClassName))) &&
      LastEntry(saved, MessageEntryName) == Some(TextValue(Some(message))) &&
      LastEntry(saved, HResultEntryName) == Some(NumberValue(hResult))
  {
    var className := Entry(ClassNameEntryName, TextValue(Some(ExceptionClassName)));
    var messageEntry := Entry(MessageEntryName, TextValue(Some(message)));
    var hResultEntry := Entry(HResultEntryName, NumberValue(hResult));
    var s1 := before + [className];
    var s2 := s1 + [messageEntry];
    var s3 := s2 + [hResultEntry];
    assert before + BaseObjectData(message, hResult) + [tokenEntry] == s3 + [tokenEntry];
    LastEntryAppend(before, className, ClassNameEntryName);
    LastEntryAppend(s1, messageEntry, ClassNameEntryName);
    LastEntryAppend(s2, hResultEntry, ClassNameEntryName);
    LastEntryAppend(s3, tokenEntry, ClassNameEntryName);
    LastEntryAppend(s1, messageEntry, MessageEntryName);
    LastEntryAppend(s2, hResultEntry, MessageEntryName);
    LastEntryAppend(s3, tokenEntry, MessageEntryName);
    LastEntryAppend(s2, hResultEntry, HResultEntryName);
    LastEntryAppend(s3, tokenEntry, HResultEntryName);
  }

  /**
   * Saving appends the base entries and then the token entry, so restoring from what was
   * saved after any entries that cast cleanly gives back the same message, HResult and token.
   */
  lemma SaveRestoreRoundTrip(before: seq<Entry>, message: string, hResult: int, token: Option<Token>)
    requires hResult != 0
    requires RestoredToken(before).Success?
    ensures Restore(before + BaseObjectData(message, hResult) + [Entry(UnsupportedTokenEntryName, TokenValue(token))])
         == Success(RestoredState(message, hResult, token))
  {
    var tokenEntry := Entry(UnsupportedTokenEntryName, TokenValue(token));
    var base := before + BaseObjectData(message, hResult);
    var saved := base + [tokenEntry];
    assert BaseRestore(saved) == Success((message, hResult)) by {
      SavedBaseEntriesLast(before, message, hResult, tokenEntry);
    }
    assert RestoredToken(saved) == Success(token) by {
      RestoredTokenSuffix(before, BaseObjectData(message, hResult));
      LastTokenEntryWins(base, token, []);
      assert base + [tokenEntry] + [] == saved;
    }
  }

  class UnsupportedTokenException {
    var message: string
    var hResult: int
    var unsupportedToken: Option<Token>

    /** The token-carrying constructor: the message names the token's type. */
    constructor (token: Token)
      ensures unsupportedToken == Some(token)
      ensures message == MessageFor(token)
      ensures hResult == DefaultHResult
    {
      message := MessageFor(token);
      hResult := DefaultHResult;
      unsupportedToken := Some(token);
    }

    /** The state the deserialising constructor ends with. */
    constructor Restored(s: RestoredState)
      ensures message == s.message && hResult == s.hResult && unsupportedToken == s.token
    {
      message := s.message;
      hResult := s.hResult;
      unsupportedToken := s.token;
    }

    /** `GetObjectData`: the base entries, then the token under the name "UnsupportedToken". */
    method GetObjectData(info: SerializationInfo)
      modifies info
      ensures info.entries == old(info.entries) + BaseObjectData(message, hResult)
                              + [Entry(UnsupportedTokenEntryName, TokenValue(unsupportedToken))]
    {
      info.AddValue(ClassNameEntryName, TextValue(Some(ExceptionClassName)));
      info.AddValue(MessageEntryName, TextValue(Some(message)));
      info.AddValue(HResultEntryName, NumberValue(hResult));
      info.AddValue(UnsupportedTokenEntryName, TokenValue(unsupportedToken));
    }

    /**
     * The deserialising constructor: a null `info` is refused; the base restores the
     * message and HResult (or refuses); then every entry is visited and each one named
     * "UnsupportedToken" is cast to a token.
     */
    static method Deserialize(info: SerializationInfo?) returns (r: Result<UnsupportedTokenException, RestoreError>)
      ensures info == null ==> r == Failure(ArgumentNull)
      ensures info != null && Restore(info.entries).Failure? ==> r == Failure(Restore(info.entries).error)
      ensures info != null && Restore(info.entries).Success? ==>
        r.Success? && fresh(r.value) &&
        r.value.message == Restore(info.entries).value.message &&
        r.value.hResult == Restore(info.entries).value.hResult &&
        r.value.unsupportedToken == Restore(info.entries).value.token
    {
      if info == null {
        return Failure(ArgumentNull);
      }
      var base := BaseRestore(info.entries);
      if base.Failure? {
        return Failure(base.error);
      }
      var token := ReadUnsupportedToken(info.entries);
      if token.Failure? {
        r := Failure(token.error);
      } else {
        var e := new UnsupportedTokenException.Restored(RestoredState(base.value.0, base.value.1, token.value));
        r := Success(e);
      }
    }
  }

  /** Saving an exception and restoring it gives back the token it was raised for. */
  method SaveAndRestore(token: Token) returns (restored: Result<UnsupportedTokenException, RestoreError>)
    ensures restored.Success?
    ensures restored.value.unsupportedToken == Some(token)
    ensures restored.value.message == MessageFor(token)
    ensures restored.value.hResult == DefaultHResult
  {
    var e := new UnsupportedTokenException(token);
    var info := new SerializationInfo();
    e.GetObjectData(info);
    SaveRestoreRoundTrip([], e.message, e.hResult, e.unsupportedToken);
    assert info.entries == [] + BaseObjectData(e.message, e.hResult)
                           + [Entry(UnsupportedTokenEntryName, TokenValue(e.unsupportedToken))];
    restored := UnsupportedTokenException.Deserialize(info);
  }
}
