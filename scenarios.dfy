/**
 * Concrete runs of the approval and update rules on small collections.
 */
module Scenarios {
  import opened JsValues
  import opened Store
  import opened Approval
  import opened Update

  function UserWith(username: JsString): Record {
    map[UsernameField := username]
  }

  /** Users "555", "555a" and "555b": a signup with phone "555" becomes "555c". */
  lemma ThirdSuffixAfterTwoTaken()
    ensures var users := map[Text("1") := UserWith(Text("555")), Text("2") := UserWith(Text("555a")),
                             Text("3") := UserWith(Text("555b"))];
            IsResolvedUsername(users, Text("555"), Text("555c"))
  {
    var users := map[Text("1") := UserWith(Text("555")), Text("2") := UserWith(Text("555a")),
                     Text("3") := UserWith(Text("555b"))];
    var phone := Text("555");
    assert Lookup(users[Text("1")], UsernameField) == Some(phone);
    assert Suffixed(phone, 'b' as int) == Text("555b");
    assert Lookup(users[Text("3")], UsernameField) == Some(Suffixed(phone, 'b' as int));
    assert Suffixed(phone, 'c' as int) == Text("555c");
    assert IsFirstFreeCode(users, phone, 'c' as int);
  }

  /**
   * Only "555" is taken: the stored username is "555b", never "555a", since
   * the loop increments the code before its first test.
   */
  lemma SuffixASkipped()
    ensures var users := map[Text("1") := UserWith(Text("555"))];
            IsResolvedUsername(users, Text("555"), Text("555b"))
            && !IsResolvedUsername(users, Text("555"), Text("555a"))
  {
    var users := map[Text("1") := UserWith(Text("555"))];
    var phone := Text("555");
    assert Lookup(users[Text("1")], UsernameField) == Some(phone);
    assert Suffixed(phone, 'b' as int) == Text("555b");
    assert IsFirstFreeCode(users, phone, 'b' as int);
    assert Text("555a") != Text("555b") by { assert Text("555a")[3] != Text("555b")[3]; }
  }

  /** Users 1 "bob" and 2 "carl": renaming user 2 to "bob" keeps "carl" and reports false. */
  lemma UpdateCollisionKeepsUsername()
    ensures var users := map[Text("1") := UserWith(Text("bob")), Text("2") := UserWith(Text("carl"))];
            var toBob := map[KeyField := Text("2"), UsernameField := Text("bob")];
            UsernameField !in StrippedPayload(users, toBob)
            && UpdatedUsers(users, toBob)[Text("2")][UsernameField] == Text("carl")
  {
    var users := map[Text("1") := UserWith(Text("bob")), Text("2") := UserWith(Text("carl"))];
    assert Text("1") != Text("2") by { assert Text("1")[0] != Text("2")[0]; }
    assert Lookup(users[Text("1")], UsernameField) == Some(Text("bob"));
    assert TakenByOther(users, Some(Text("2")), Some(Text("bob")));
  }

  /** Users 1 "bob" and 2 "carl": renaming user 2 to "dave" stores "dave" and reports true. */
  lemma UpdateFreeUsernameStored()
    ensures var users := map[Text("1") := UserWith(Text("bob")), Text("2") := UserWith(Text("carl"))];
            var toDave := map[KeyField := Text("2"), UsernameField := Text("dave")];
            UsernameField in StrippedPayload(users, toDave)
            && UpdatedUsers(users, toDave)[Text("2")][UsernameField] == Text("dave")
  {
    var users := map[Text("1") := UserWith(Text("bob")), Text("2") := UserWith(Text("carl"))];
    assert !TakenByOther(users, Some(Text("2")), Some(Text("dave"))) by {
      assert Text("bob") != Text("dave");
    }
  }

  /**
   * User 2 with password "p": an update carrying password "x" and phone
   * "123" stores the new phone and leaves the password "p".
   */
  lemma UpdatePasswordStripped()
    ensures var users := map[Text("2") := map[UsernameField := Text("carl"), PasswordField := Text("p"),
                                              PhoneField := Text("000")]];
            var user := map[KeyField := Text("2"), UsernameField := Text("dave"), PasswordField := Text("x"),
                            PhoneField := Text("123")];
            var after := UpdatedUsers(users, user)[Text("2")];
            after[PasswordField] == Text("p") && after[PhoneField] == Text("123")
            && after[UsernameField] == Text("dave")
  {
  }

  /** One record per suffix code in [lo, hi], keyed by the one-unit string of its code. */
  function SuffixedUsers(phone: JsString, lo: CodeUnit, hi: CodeUnit): map<Key, Record> {
    map c: CodeUnit | lo <= c <= hi :: [c] := UserWith(Suffixed(phone, c))
  }

  /** The phone and every suffix 'b'..'z' taken: the loop runs past 'z' and yields "555{". */
  lemma NoStopAtZ()
    ensures IsResolvedUsername(SuffixedUsers(Text("555"), 'b' as int, 'z' as int)[Text("0") := UserWith(Text("555"))],
                               Text("555"), Text("555{"))
  {
    var phone := Text("555");
    var suffixed := SuffixedUsers(phone, 'b' as int, 'z' as int);
    var users := suffixed[Text("0") := UserWith(phone)];
    var next := '{' as int;
    assert Lookup(users[Text("0")], UsernameField) == Some(phone);
    forall c | FirstSuffixCode <= c < next
      ensures Taken(users, Suffixed(phone, c))
    {
      assert [c as CodeUnit] in suffixed;
      assert Lookup(users[[c as CodeUnit]], UsernameField) == Some(Suffixed(phone, c));
    }
    forall k | k in users
      ensures Lookup(users[k], UsernameField) != Some(Suffixed(phone, next))
    {
      if k != Text("0") {
        var c: CodeUnit :| 'b' as int <= c <= 'z' as int && k == [c];
        assert Suffixed(phone, c)[3] != Suffixed(phone, next)[3];
      }
    }
    assert IsFirstFreeCode(users, phone, next);
    assert Suffixed(phone, next) == Text("555{");
  }
}
