/** The scenarios the helpers' unit tests check, stated over the model of the
    same fixture tables. */
module HelpersTest {
  import opened Objects
  import opened Helpers

  const TestUsers: Dict<User> := Dict(
    ["userRandomID", "user2RandomID"],
    map[
      "userRandomID" := User("userRandomID", "user@example.com", "purple-monkey-dinosaur"),
      "user2RandomID" := User("user2RandomID", "user2@example.com", "dishwasher-funk")
    ])

  const TestUrlDatabase: Dict<Url> := Dict(
    ["b6UTxQ", "Y6UTA5", "TTTxQ3", "i3BoGr"],
    map[
      "b6UTxQ" := Url("https://www.tsn.ca", "userRandomID"),
      "Y6UTA5" := Url("https://www.cbc.ca", "userRandomID"),
      "TTTxQ3" := Url("https://www.abc.com", "userRandomID"),
      "i3BoGr" := Url("https://www.google.ca", "user2RandomID")
    ])

  lemma FixturesValid()
    ensures TestUsers.Valid() && TestUrlDatabase.Valid()
  {
    assert "userRandomID" != "user2RandomID" by {
      assert |"userRandomID"| != |"user2RandomID"|;
    }
    var codes := TestUrlDatabase.keys;
    assert forall i, j | 0 <= i < j < 4 :: codes[i] != codes[j] by {
      assert codes[0][0] == 'b' && codes[1][0] == 'Y' && codes[2][0] == 'T' && codes[3][0] == 'i';
    }
  }

  /** Who owns each short URL of the fixture. */
  lemma FixtureOwners()
    ensures "userRandomID" != "user2RandomID"
    ensures forall k :: k in TestUrlDatabase.entries <==> k in ["b6UTxQ", "Y6UTA5", "TTTxQ3", "i3BoGr"]
    ensures TestUrlDatabase.entries["b6UTxQ"].userID == "userRandomID"
    ensures TestUrlDatabase.entries["Y6UTA5"].userID == "userRandomID"
    ensures TestUrlDatabase.entries["TTTxQ3"].userID == "userRandomID"
    ensures TestUrlDatabase.entries["i3BoGr"].userID == "user2RandomID"
  {
    assert |"userRandomID"| != |"user2RandomID"|;
    FixturesValid();
  }

  /** The fixture's short URLs owned by `id`, computed one key at a time. */
  lemma FixtureOwnedKeys(id: string)
    ensures OwnedKeys(id, TestUrlDatabase.keys, TestUrlDatabase.entries)
         == (if id == "userRandomID" then ["b6UTxQ", "Y6UTA5", "TTTxQ3"] else [])
          + (if id == "user2RandomID" then ["i3BoGr"] else [])
  {
    FixtureOwners();
    var codes, urls := TestUrlDatabase.keys, TestUrlDatabase.entries;
    assert codes[1..][1..][1..][1..] == [];
    var own := (k: string) requires k in urls => if urls[k].userID == id then [k] else [];
    assert OwnedKeys(id, codes[1..][1..][1..], urls) == own("i3BoGr");
    assert OwnedKeys(id, codes[1..][1..], urls) == own("TTTxQ3") + own("i3BoGr");
    assert OwnedKeys(id, codes[1..], urls) == own("Y6UTA5") + own("TTTxQ3") + own("i3BoGr");
    assert OwnedKeys(id, codes, urls) == own("b6UTxQ") + own("Y6UTA5") + own("TTTxQ3") + own("i3BoGr");
  }

  /** A registered email finds the user stored under "userRandomID". */
  method ValidEmailFindsUser() returns (user: Option<User>)
    ensures user.Some? && user.value.id == "userRandomID"
  {
    FixturesValid();
    user := GetUserByEmail("user@example.com", TestUsers);
  }

  /** An email nobody registered gives null. */
  method UnknownEmailIsNull() returns (user: Option<User>)
    ensures user == None
  {
    FixturesValid();
    user := GetUserByEmail("user3@example.com", TestUsers);
  }

  /** The empty email gives null. */
  method EmptyEmailIsNull() returns (user: Option<User>)
    ensures user == None
  {
    FixturesValid();
    user := GetUserByEmail("", TestUsers);
  }

  /** "user2RandomID" owns exactly the short URL i3BoGr. */
  lemma UrlsOfSecondUser()
    ensures OwnedBy("user2RandomID", TestUrlDatabase.keys, TestUrlDatabase.entries)
         == Dict(["i3BoGr"], map["i3BoGr" := Url("https://www.google.ca", "user2RandomID")])
  {
    FixturesValid();
    UrlsForUserExactly("user2RandomID", TestUrlDatabase);
    FixtureOwnedKeys("user2RandomID");
    var userUrls := OwnedBy("user2RandomID", TestUrlDatabase.keys, TestUrlDatabase.entries);
    var expected := Dict(["i3BoGr"], map["i3BoGr" := Url("https://www.google.ca", "user2RandomID")]);
    forall k | k in userUrls.entries
      ensures userUrls.entries[k] == expected.entries[k]
    {
      assert k == "i3BoGr";
    }
    SameContents(userUrls, expected);
  }

  /** The object the test expects for "userRandomID". */
  const FirstUserUrls: Dict<Url> := Dict(["b6UTxQ", "Y6UTA5", "TTTxQ3"], map[
    "b6UTxQ" := Url("https://www.tsn.ca", "userRandomID"),
    "Y6UTA5" := Url("https://www.cbc.ca", "userRandomID"),
    "TTTxQ3" := Url("https://www.abc.com", "userRandomID")
  ])

  lemma FirstUserUrlsValid()
    ensures FirstUserUrls.Valid()
    ensures forall k | k in FirstUserUrls.entries ::
      (k in TestUrlDatabase.entries && FirstUserUrls.entries[k] == TestUrlDatabase.entries[k])
  {
    var codes := FirstUserUrls.keys;
    assert codes[0][0] == 'b' && codes[1][0] == 'Y' && codes[2][0] == 'T';
    FixtureOwners();
  }

  /** "userRandomID" owns exactly b6UTxQ, Y6UTA5 and TTTxQ3, in that order. */
  lemma UrlsOfFirstUser()
    ensures OwnedBy("userRandomID", TestUrlDatabase.keys, TestUrlDatabase.entries) == FirstUserUrls
  {
    FixturesValid();
    UrlsForUserExactly("userRandomID", TestUrlDatabase);
    FixtureOwnedKeys("userRandomID");
    FirstUserUrlsValid();
    var userUrls := OwnedBy("userRandomID", TestUrlDatabase.keys, TestUrlDatabase.entries);
    SameContents(userUrls, FirstUserUrls);
  }

  /** A user who owns nothing gets the empty object. */
  lemma UrlsOfUnknownUser()
    ensures OwnedBy("user3RandomID", TestUrlDatabase.keys, TestUrlDatabase.entries) == EmptyDict()
  {
    FixturesValid();
    UrlsForUserEmpty("user3RandomID", TestUrlDatabase);
  }
}
