/** The helper functions of the URL shortener: looking a user up by email,
    generating random short identifiers, and selecting the URLs a user owns. */
module Helpers {
  import opened Objects

  /** A registered user, stored in the user table under its id. */
  datatype User = User(id: string, email: string, password: string)

  /** A shortened URL, stored in the URL table under its short code. */
  datatype Url = Url(longURL: string, userID: string)

  // ---------------------------------------------------------------------------
  // getUserByEmail
  // ---------------------------------------------------------------------------

  /** The first user, in the order of `userIds`, whose email equals `email`
      exactly, or None when there is none. */
  function FirstWithEmail(email: string, userIds: seq<string>, users: map<string, User>): Option<User>
    requires forall k | k in userIds :: k in users
  {
    if userIds == [] then None
    else if users[userIds[0]].email == email then Some(users[userIds[0]])
    else FirstWithEmail(email, userIds[1..], users)
  }

  /** Scans the user table in key order and returns the first user whose email
      is `email`, or null. */
  method GetUserByEmail(email: string, database: Dict<User>) returns (user: Option<User>)
    requires database.Valid()
    ensures user == FirstWithEmail(email, database.keys, database.entries)
  {
    var userIds := database.keys;
    var i := 0;
    while i < |userIds|
      invariant 0 <= i <= |userIds|
      invariant FirstWithEmail(email, userIds, database.entries)
             == FirstWithEmail(email, userIds[i..], database.entries)
    {
      var userId := userIds[i];
      if database.entries[userId].email == email {
        return Some(database.entries[userId]);
      }
      assert userIds[i..][1..] == userIds[i + 1..];
      i := i + 1;
    }
    return None;
  }

  /** A found user is held by the table, has exactly the queried email, and
      every user enumerated before it has a different email. */
  lemma {:induction false} FirstWithEmailFound(email: string, userIds: seq<string>, users: map<string, User>)
    requires forall k | k in userIds :: k in users
    requires FirstWithEmail(email, userIds, users).Some?
    ensures exists i :: (0 <= i < |userIds|
      && users[userIds[i]] == FirstWithEmail(email, userIds, users).value
      && users[userIds[i]].email == email
      && forall j :: 0 <= j < i ==> users[userIds[j]].email != email)
  {
    if users[userIds[0]].email != email {
      FirstWithEmailFound(email, userIds[1..], users);
      var i :| 0 <= i < |userIds[1..]|
        && users[userIds[1..][i]] == FirstWithEmail(email, userIds[1..], users).value
        && users[userIds[1..][i]].email == email
        && forall j :: 0 <= j < i ==> users[userIds[1..][j]].email != email;
      assert users[userIds[i + 1]].email == email;
      forall j | 0 <= j < i + 1
        ensures users[userIds[j]].email != email
      {
        if j > 0 {
          assert userIds[j] == userIds[1..][j - 1];
        }
      }
    }
  }

  /** Conversely, the user at the earliest key whose email matches is the one
      returned. */
  lemma {:induction false} FirstWithEmailEarliest(email: string, userIds: seq<string>, users: map<string, User>, i: nat)
    requires forall k | k in userIds :: k in users
    requires i < |userIds| && users[userIds[i]].email == email
    requires forall j :: 0 <= j < i ==> users[userIds[j]].email != email
    ensures FirstWithEmail(email, userIds, users) == Some(users[userIds[i]])
  {
    if i > 0 {
      forall j | 0 <= j < i - 1
        ensures users[userIds[1..][j]].email != email
      {
        assert userIds[1..][j] == userIds[j + 1];
      }
      FirstWithEmailEarliest(email, userIds[1..], users, i - 1);
    }
  }

  /** null is returned exactly when no enumerated user has the queried email. */
  lemma {:induction false} FirstWithEmailNone(email: string, userIds: seq<string>, users: map<string, User>)
    requires forall k | k in userIds :: k in users
    ensures FirstWithEmail(email, userIds, users) == None
        <==> forall k | k in userIds :: users[k].email != email
  {
    if userIds != [] {
      FirstWithEmailNone(email, userIds[1..], users);
      assert forall k :: k in userIds <==> k == userIds[0] || k in userIds[1..];
    }
  }

  /** On a whole table: null exactly when no user in it has the email, the
      empty email included. */
  lemma GetUserByEmailNull(email: string, database: Dict<User>)
    requires database.Valid()
    ensures FirstWithEmail(email, database.keys, database.entries) == None
        <==> forall id | id in database.entries :: database.entries[id].email != email
  {
    FirstWithEmailNone(email, database.keys, database.entries);
  }

  /** When exactly one user has the email, as registration is meant to ensure,
      that user is the one returned. */
  lemma UniqueEmailFound(email: string, database: Dict<User>, id: string)
    requires database.Valid()
    requires id in database.entries && database.entries[id].email == email
    requires forall other | other in database.entries && database.entries[other].email == email :: other == id
    ensures FirstWithEmail(email, database.keys, database.entries) == Some(database.entries[id])
  {
    var i :| 0 <= i < |database.keys| && database.keys[i] == id;
    FirstWithEmailEarliest(email, database.keys, database.entries, i);
  }

  // ---------------------------------------------------------------------------
  // generateRandomString
  // ---------------------------------------------------------------------------

  /** The alphabet short identifiers are drawn from. */
  const Chars: string := "ABCDEFGHIJKLMNOPQRSTUVWXYZabcdefghijklmnopqrstuvwxyz0123456789"

  /** `s.charAt(index)`: the one-character string at `index`, or the empty
      string when `index` is out of range. */
  function CharAt(s: string, index: int): (c: string)
    ensures |c| == 1 <==> 0 <= index < |s|
    ensures |c| == 0 <==> !(0 <= index < |s|)
    ensures |c| == 1 ==> c[0] == s[index]
  {
    if 0 <= index < |s| then [s[index]] else ""
  }

  /** The number of times `for (let i = 0; i < nbChars; i++)` runs its body. */
  function LoopCount(nbChars: int): nat {
    if nbChars < 0 then 0 else nbChars
  }

  /** Every draw `Math.floor(Math.random() * chars.length)` is an index into
      the alphabet, because `Math.random()` lies in [0, 1). */
  ghost predicate InRange(draws: seq<int>) {
    forall i | 0 <= i < |draws| :: 0 <= draws[i] < |Chars|
  }

  /** The string the loop appends, one `charAt` per draw. */
  function RandomString(draws: seq<int>): string {
    if draws == [] then ""
    else RandomString(draws[..|draws| - 1]) + CharAt(Chars, draws[|draws| - 1])
  }

  ghost predicate IsAlphanumeric(c: char) {
    'A' <= c <= 'Z' || 'a' <= c <= 'z' || '0' <= c <= '9'
  }

  /** Builds a string of `nbChars` characters; `draws` holds the values the
      source obtains from `Math.random()`, one per iteration. */
  method GenerateRandomString(draws: seq<int>, nbChars: int := 6) returns (result: string)
    requires |draws| == LoopCount(nbChars)
    ensures result == RandomString(draws)
    ensures InRange(draws) ==> |result| == LoopCount(nbChars)
    ensures InRange(draws) ==> forall i | 0 <= i < |result| :: IsAlphanumeric(result[i])
  {
    result := "";
    var i := 0;
    while i < nbChars
      invariant 0 <= i <= |draws|
      invariant nbChars >= 0 ==> i <= nbChars
      invariant result == RandomString(draws[..i])
    {
      assert draws[..i + 1][..i] == draws[..i];
      result := result + CharAt(Chars, draws[i]);
      i := i + 1;
    }
    assert draws[..i] == draws;
    if InRange(draws) {
      RandomStringShape(draws);
      CharsAreAlphanumeric();
    }
  }

  /** The i-th alphabet character: the upper-case letters, then the
      lower-case ones, then the digits. */
  function CharOf(i: int): (c: char)
    requires 0 <= i < 62
    ensures IsAlphanumeric(c)
  {
    if i < 26 then ('A' as int + i) as char
    else if i < 52 then ('a' as int + i - 26) as char
    else ('0' as int + i - 52) as char
  }

  /** The position of an alphanumeric character in the alphabet. */
  function IndexOf(c: char): (i: int)
    requires IsAlphanumeric(c)
    ensures 0 <= i < 62 && CharOf(i) == c
  {
    if 'A' <= c <= 'Z' then c as int - 'A' as int
    else if 'a' <= c <= 'z' then c as int - 'a' as int + 26
    else c as int - '0' as int + 52
  }

  /** The three runs the alphabet is made of. */
  const Upper: string := "ABCDEFGHIJKLMNOPQRSTUVWXYZ"
  const Lower: string := "abcdefghijklmnopqrstuvwxyz"
  const Digits: string := "0123456789"

  lemma CharsRuns()
    ensures Chars == Upper + Lower + Digits
  {
  }

  lemma UpperAt(i: int)
    requires 0 <= i < 26
    ensures Upper[i] as int == 'A' as int + i
  {
  }

  lemma LowerAt(i: int)
    requires 0 <= i < 26
    ensures Lower[i] as int == 'a' as int + i
  {
  }

  lemma DigitsAt(i: int)
    requires 0 <= i < 10
    ensures Digits[i] as int == '0' as int + i
  {
  }

  /** The i-th character of the alphabet is CharOf(i). */
  lemma CharsAt(i: int)
    requires 0 <= i < 62
    ensures |Chars| == 62 && Chars[i] == CharOf(i)
  {
    CharsRuns();
    if i < 26 {
      UpperAt(i);
    } else if i < 52 {
      LowerAt(i - 26);
    } else {
      DigitsAt(i - 52);
    }
  }

  /** The alphabet holds 62 characters, each alphanumeric and each once, and
      every alphanumeric character is among them. */
  lemma CharsAreAlphanumeric()
    ensures |Chars| == 62
    ensures forall i | 0 <= i < |Chars| :: Chars[i] == CharOf(i)
    ensures forall c :: c in Chars <==> IsAlphanumeric(c)
    ensures forall i, j | 0 <= i < j < |Chars| :: Chars[i] != Chars[j]
  {
    CharsAt(0);
    forall i | 0 <= i < 62
      ensures Chars[i] == CharOf(i)
    {
      CharsAt(i);
    }
    forall c
      ensures c in Chars <==> IsAlphanumeric(c)
    {
      if IsAlphanumeric(c) {
        CharsAt(IndexOf(c));
      }
    }
    forall i, j | 0 <= i < j < 62
      ensures Chars[i] != Chars[j]
    {
      CharsAt(i);
      CharsAt(j);
    }
  }

  /** With in-range draws, the string has one character per draw, namely the
      alphabet character the draw selects. */
  lemma {:induction false} RandomStringShape(draws: seq<int>)
    requires InRange(draws)
    ensures |RandomString(draws)| == |draws|
    ensures forall i | 0 <= i < |draws| :: RandomString(draws)[i] == Chars[draws[i]]
  {
    if draws != [] {
      var front := draws[..|draws| - 1];
      RandomStringShape(front);
      forall i | 0 <= i < |draws|
        ensures RandomString(draws)[i] == Chars[draws[i]]
      {
        if i < |front| {
          assert draws[i] == front[i];
        }
      }
    }
  }

  /** Different in-range draws of the same length give different strings, so
      each of the 62^n strings comes from exactly one draw sequence. */
  lemma RandomStringInjective(a: seq<int>, b: seq<int>)
    requires InRange(a) && InRange(b) && |a| == |b|
    requires RandomString(a) == RandomString(b)
    ensures a == b
  {
    RandomStringShape(a);
    RandomStringShape(b);
    CharsAreAlphanumeric();
    forall i | 0 <= i < |a|
      ensures a[i] == b[i]
    {
      assert Chars[a[i]] == RandomString(a)[i] == Chars[b[i]];
    }
  }

  /** Every alphanumeric string can be generated: these draws produce it. */
  function DrawsFor(s: string): (draws: seq<int>)
    requires forall i | 0 <= i < |s| :: IsAlphanumeric(s[i])
    ensures |draws| == |s| && InRange(draws)
  {
    CharsAreAlphanumeric();
    seq(|s|, i requires 0 <= i < |s| => IndexOf(s[i]))
  }

  lemma RandomStringCovers(s: string)
    requires forall i | 0 <= i < |s| :: IsAlphanumeric(s[i])
    ensures RandomString(DrawsFor(s)) == s
  {
    var draws := DrawsFor(s);
    RandomStringShape(draws);
    CharsAreAlphanumeric();
  }

  // ---------------------------------------------------------------------------
  // urlsForUser
  // ---------------------------------------------------------------------------

  /** The object the loop has built after visiting `shortURLs`: each URL whose
      owner is `id`, assigned in visiting order. */
  function OwnedBy(id: string, shortURLs: seq<string>, urls: map<string, Url>): Dict<Url>
    requires forall k | k in shortURLs :: k in urls
  {
    if shortURLs == [] then EmptyDict()
    else
      var shortURL := shortURLs[|shortURLs| - 1];
      var userUrls := OwnedBy(id, shortURLs[..|shortURLs| - 1], urls);
      if urls[shortURL].userID == id then userUrls.Put(shortURL, urls[shortURL]) else userUrls
  }

  /** Returns a fresh object holding the entries of the URL table whose owner
      is `id`. */
  method UrlsForUser(id: string, database: Dict<Url>) returns (userUrls: Dict<Url>)
    requires database.Valid()
    ensures userUrls == OwnedBy(id, database.keys, database.entries)
  {
    var shortURLs := database.keys;
    userUrls := EmptyDict();
    var i := 0;
    while i < |shortURLs|
      invariant 0 <= i <= |shortURLs|
      invariant userUrls == OwnedBy(id, shortURLs[..i], database.entries)
    {
      var shortURL := shortURLs[i];
      assert shortURLs[..i + 1][..i] == shortURLs[..i];
      if database.entries[shortURL].userID == id {
        userUrls := userUrls.Put(shortURL, database.entries[shortURL]);
      }
      i := i + 1;
    }
    assert shortURLs[..i] == shortURLs;
  }

  /** Reference order: the owned short codes, front to back. */
  function OwnedKeys(id: string, shortURLs: seq<string>, urls: map<string, Url>): seq<string>
    requires forall k | k in shortURLs :: k in urls
  {
    if shortURLs == [] then []
    else (if urls[shortURLs[0]].userID == id then [shortURLs[0]] else [])
         + OwnedKeys(id, shortURLs[1..], urls)
  }

  lemma {:induction false} OwnedKeysSnoc(id: string, shortURLs: seq<string>, k: string, urls: map<string, Url>)
    requires forall x | x in shortURLs :: x in urls
    requires k in urls
    ensures OwnedKeys(id, shortURLs + [k], urls)
         == OwnedKeys(id, shortURLs, urls) + (if urls[k].userID == id then [k] else [])
  {
    if shortURLs != [] {
      assert (shortURLs + [k])[1..] == shortURLs[1..] + [k];
      OwnedKeysSnoc(id, shortURLs[1..], k, urls);
    } else {
      assert [k][1..] == [];
    }
  }

  /** What the loop builds, over distinct keys: a well-formed object holding
      exactly the owned short codes, each with its record from the table,
      enumerated in the table's order. */
  lemma {:induction false} OwnedByExactly(id: string, shortURLs: seq<string>, urls: map<string, Url>)
    requires forall k | k in shortURLs :: k in urls
    requires forall i, j | 0 <= i < j < |shortURLs| :: shortURLs[i] != shortURLs[j]
    ensures OwnedBy(id, shortURLs, urls).Valid()
    ensures forall k :: k in OwnedBy(id, shortURLs, urls).entries
                    <==> k in shortURLs && urls[k].userID == id
    ensures forall k | k in OwnedBy(id, shortURLs, urls).entries :: OwnedBy(id, shortURLs, urls).entries[k] == urls[k]
    ensures OwnedBy(id, shortURLs, urls).keys == OwnedKeys(id, shortURLs, urls)
  {
    if shortURLs != [] {
      var front := shortURLs[..|shortURLs| - 1];
      var last := shortURLs[|shortURLs| - 1];
      assert front + [last] == shortURLs;
      assert forall i, j | 0 <= i < j < |front| :: front[i] != front[j];
      OwnedByExactly(id, front, urls);
      OwnedKeysSnoc(id, front, last, urls);
      var built := OwnedBy(id, front, urls);
      assert last !in built.entries by {
        assert last !in front;
      }
      assert OwnedBy(id, shortURLs, urls)
          == if urls[last].userID == id then built.Put(last, urls[last]) else built;
      assert forall k :: k in shortURLs <==> k in front || k == last;
    }
  }

  /** urlsForUser on a table: a key is in the result exactly when the table
      holds it and its owner is `id`, with the table's own record, and the
      result enumerates its keys in the table's order. */
  lemma UrlsForUserExactly(id: string, database: Dict<Url>)
    requires database.Valid()
    ensures var userUrls := OwnedBy(id, database.keys, database.entries);
      && userUrls.Valid()
      && (forall k :: k in userUrls.entries <==> k in database.entries && database.entries[k].userID == id)
      && (forall k | k in userUrls.entries :: userUrls.entries[k] == database.entries[k])
      && userUrls.keys == OwnedKeys(id, database.keys, database.entries)
  {
    OwnedByExactly(id, database.keys, database.entries);
  }

  /** The result is the empty object exactly when no URL belongs to `id`, as
      for an unknown user. */
  lemma UrlsForUserEmpty(id: string, database: Dict<Url>)
    requires database.Valid()
    ensures OwnedBy(id, database.keys, database.entries) == EmptyDict()
        <==> forall k | k in database.entries :: database.entries[k].userID != id
  {
    var userUrls := OwnedBy(id, database.keys, database.entries);
    UrlsForUserExactly(id, database);
    if forall k | k in database.entries :: database.entries[k].userID != id {
      assert userUrls.entries == map[];
    } else {
      var k :| k in database.entries && database.entries[k].userID == id;
      assert k in userUrls.entries;
    }
  }
}
