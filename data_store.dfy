/**
 * The persistent store of the account module: the record types and the
 * process-wide cache in front of the backing `database.json` document.
 */
module DataStore {
  import opened Wrappers

  /** One registered account, as stored in the document. */
  datatype User = User(
    userId: int,
    name: string,
    email: string,
    password: string,
    numSuccessfulLogins: int,
    numFailedPasswordsSinceLastLogin: int,
    oldPasswords: seq<string>,
    totalSessionNum: int,
    activeSessionIds: seq<int>)

  /** The whole document: the list of users. */
  datatype Data = Data(users: seq<User>)

  /**
   * A decoded token. The source casts the parsed JSON to this shape without
   * checking it, so a field the text lacks (or holds as a non-number) is
   * `undefined`, modelled as `None`: it is never equal to any stored number.
   */
  datatype TokenObject = TokenObject(sessionId: Option<int>, userId: Option<int>)

  /** The document used when no backing file exists yet. */
  const DefaultData: Data := Data([])

  /**
   * The invariant the account operations keep: every user's id is its
   * position in the list (ids are handed out as the current length and no
   * user is ever removed), and no two users share an email.
   */
  predicate WellFormed(d: Data) {
    && (forall i :: 0 <= i < |d.users| ==> d.users[i].userId == i)
    && (forall i, j :: 0 <= i < j < |d.users| ==> d.users[i].email != d.users[j].email)
  }

  /**
   * The module-level cache (`dataStore`) and the backing file. `file` is
   * `None` while `database.json` does not exist; otherwise it is the parsed
   * document the file holds.
   */
  class Store {
    var cache: Option<Data>
    var file: Option<Data>

    /** A fresh process: nothing cached yet, the file as it is on disk. */
    constructor (file: Option<Data>)
      ensures this.file == file && cache == None
      ensures Valid()
    {
      this.file := file;
      cache := None;
    }

    /** What reading the backing file yields: its document, or the default one when it is missing. */
    function FileContent(): Data
      reads this
    {
      match file
      case Some(d) => d
      case None => DefaultData
    }

    /** The cache never disagrees with what the file would give. */
    predicate Valid()
      reads this
    {
      cache.Some? ==> cache.value == FileContent()
    }

    /** The document `getData` returns in the current state. */
    function View(): Data
      reads this
    {
      match cache
      case Some(d) => d
      case None => FileContent()
    }

    /** Under the invariant the document in memory is the document on disk. */
    lemma ViewIsFileContent()
      requires Valid()
      ensures View() == FileContent()
    {
    }

    /**
     * `getData`: the cached document if there is one; otherwise the file's
     * document (or the default one when there is no file), which becomes
     * the cache. The file is never written.
     */
    method GetData() returns (d: Data)
      requires Valid()
      modifies this`cache
      ensures Valid()
      ensures old(cache).Some? ==> d == old(cache).value
      ensures old(cache).None? && old(file).None? ==> d == DefaultData
      ensures old(cache).None? && old(file).Some? ==> d == old(file).value
      ensures cache == Some(d) && file == old(file)
      ensures d == old(View()) && View() == old(View())
    {
      if cache.Some? {
        return cache.value;
      }
      if file.None? {
        cache := Some(DefaultData);
        return DefaultData;
      }
      cache := Some(file.value);
      d := file.value;
    }

    /** `saveData`: the whole document replaces the file's content and the cache. */
    method SaveData(d: Data)
      modifies this
      ensures file == Some(d) && cache == Some(d)
      ensures Valid() && View() == d
    {
      file := Some(d);
      cache := Some(d);
    }
  }
}
