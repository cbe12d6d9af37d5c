/** The logic of the admin page, Frontend/src/pages/admin.jsx: the skills text box (the
    stored list joined with ", " when editing starts, split on commas, trimmed and
    emptied of blanks when saving) and the search box (a case-insensitive substring
    filter on email over the fetched list). */
module AdminPanel {
  import opened JsValues
  import opened JsStrings
  import opened UserModel
  import opened UserController

  // ---------------------------------------------------------------- skills text

  /** A skill as the parser produces it: non-empty, no white space at either end, and no
      comma. */
  predicate CleanSkill(s: string)
  {
    s != "" && Trimmed(s) && ',' !in s
  }

  /** `.map((skill) => skill.trim())`. */
  function TrimEach(xs: seq<string>): (r: seq<string>)
    ensures |r| == |xs|
  {
    if xs == [] then [] else [Trim(xs[0])] + TrimEach(xs[1..])
  }

  lemma {:induction false} TrimEachAt(xs: seq<string>, i: nat)
    requires i < |xs|
    ensures TrimEach(xs)[i] == Trim(xs[i])
    decreases i
  {
    if i > 0 { TrimEachAt(xs[1..], i - 1); }
  }

  /** `.filter(Boolean)` on strings: the non-empty ones, in order. */
  function DropEmpty(xs: seq<string>): (r: seq<string>)
    ensures forall i :: 0 <= i < |r| ==> r[i] != "" && r[i] in xs
  {
    if xs == [] then []
    else if xs[0] == "" then DropEmpty(xs[1..])
    else [xs[0]] + DropEmpty(xs[1..])
  }

  /** The text box shown when editing starts: `user.skills?.join(", ")`. */
  function SkillsText(skills: seq<string>): string
  {
    Join(skills, ", ")
  }

  /** Characters absent from a string are absent from its trimmed form. */
  lemma TrimKeepsAbsent(s: string, c: char)
    requires c !in s
    ensures c !in Trim(s)
  {
    var k := TrimFrom(s);
    var r := Trim(s);
    forall i | 0 <= i < |r| ensures r[i] != c {
      assert r[i] == s[k + i];
    }
  }

  /** `formData.skills.split(",").map((skill) => skill.trim()).filter(Boolean)`: every
      skill it yields is clean. */
  function ParseSkills(text: string): (r: seq<string>)
    ensures forall i :: 0 <= i < |r| ==> CleanSkill(r[i])
  {
    var pieces := Split(text, ',');
    var trimmed := TrimEach(pieces);
    forall i | 0 <= i < |trimmed| ensures ',' !in trimmed[i] && Trimmed(trimmed[i]) {
      TrimEachAt(pieces, i);
      TrimKeepsAbsent(pieces[i], ',');
    }
    DropEmpty(trimmed)
  }

  lemma {:induction false} TrimEachAppend(xs: seq<string>, ys: seq<string>)
    ensures TrimEach(xs + ys) == TrimEach(xs) + TrimEach(ys)
    decreases |xs|
  {
    if xs == [] {
      assert xs + ys == ys;
    } else {
      var zs := xs + ys;
      assert zs[0] == xs[0] && zs[1..] == xs[1..] + ys;
      TrimEachAppend(xs[1..], ys);
    }
  }

  lemma {:induction false} DropEmptyAppend(xs: seq<string>, ys: seq<string>)
    ensures DropEmpty(xs + ys) == DropEmpty(xs) + DropEmpty(ys)
    decreases |xs|
  {
    if xs != [] {
      DropEmptyAppend(xs[1..], ys);
      assert (xs + ys)[1..] == xs[1..] + ys;
    } else {
      assert xs + ys == ys;
    }
  }

  /** A comma-free text gives its trimmed self, or nothing when that is empty. */
  lemma ParseSkillsNoComma(a: string)
    requires ',' !in a
    ensures ParseSkills(a) == DropEmpty([Trim(a)])
  {
    SplitNoSeparator(a, ',');
  }

  /** Skills keep the order of the text: the skills of `a + "," + b` are those of `a`
      followed by those of `b`, for a comma-free `a`. */
  lemma ParseSkillsConcat(a: string, b: string)
    requires ',' !in a
    ensures ParseSkills(a + "," + b) == ParseSkills(a) + ParseSkills(b)
  {
    assert a + "," + b == a + [','] + b;
    SplitAfterHead(a, b, ',');
    ParseSkillsNoComma(a);
    var rest := Split(b, ',');
    TrimEachAppend([a], rest);
    DropEmptyAppend([Trim(a)], TrimEach(rest));
  }

  /** White space in front of the text changes nothing. */
  lemma ParseSkillsLeadingSpace(c: char, t: string)
    requires IsSpace(c)
    ensures ParseSkills([c] + t) == ParseSkills(t)
  {
    var rest := Split(t, ',');
    assert ([c] + t)[1..] == t;
    assert c != ',';
    var pieces := [[c] + rest[0]] + rest[1..];
    assert Split([c] + t, ',') == pieces;
    TrimSkipsLeadingSpace(c, rest[0]);
    assert TrimEach(pieces) == TrimEach(rest) by {
      assert pieces[1..] == rest[1..];
      assert rest == [rest[0]] + rest[1..];
    }
  }

  /** A clean skill parses to itself. */
  lemma ParseCleanSkill(x: string)
    requires CleanSkill(x)
    ensures ParseSkills(x) == [x]
  {
    ParseSkillsNoComma(x);
    TrimEmptyIffAllSpace(x);
    var t := Trim(x);
    assert t == x;
    assert [t][1..] == [];
    assert DropEmpty([t]) == [t];
  }

  /** The text of two or more skills is the first skill, a comma, and the rest with a
      space in front. */
  lemma SkillsTextCons(skills: seq<string>)
    requires |skills| >= 2
    ensures SkillsText(skills) == skills[0] + "," + ([' '] + SkillsText(skills[1..]))
  {
    var t := SkillsText(skills[1..]);
    assert SkillsText(skills) == skills[0] + ", " + t;
    assert skills[0] + ", " + t == skills[0] + "," + ([' '] + t);
  }

  /** Round trip: for a list of clean skills, the text shown when editing starts parses
      back to the same list. */
  lemma {:induction false} ParseSkillsText(skills: seq<string>)
    requires forall i :: 0 <= i < |skills| ==> CleanSkill(skills[i])
    ensures ParseSkills(SkillsText(skills)) == skills
    decreases |skills|
  {
    if skills == [] {
      ParseSkillsNoComma("");
      assert Trim("") == "";
    } else if |skills| == 1 {
      assert SkillsText(skills) == skills[0];
      ParseCleanSkill(skills[0]);
    } else {
      ParseSkillsText(skills[1..]);
      SkillsTextCons(skills);
      ParseSkillsTextCons(skills[0], skills[1..]);
      assert skills == [skills[0]] + skills[1..];
    }
  }

  /** One step of the round trip: a clean skill in front of a text that parses back. */
  lemma ParseSkillsTextCons(head: string, tail: seq<string>)
    requires CleanSkill(head)
    requires ParseSkills(SkillsText(tail)) == tail
    ensures ParseSkills(head + "," + ([' '] + SkillsText(tail))) == [head] + tail
  {
    var t := SkillsText(tail);
    calc {
      ParseSkills(head + "," + ([' '] + t));
      { ParseSkillsConcat(head, [' '] + t); }
      ParseSkills(head) + ParseSkills([' '] + t);
      { ParseSkillsLeadingSpace(' ', t); ParseCleanSkill(head); }
      [head] + tail;
    }
  }

  predicate CommasAndSpace(s: string)
  {
    forall i :: 0 <= i < |s| ==> s[i] == ',' || IsSpace(s[i])
  }

  lemma {:induction false} SplitCommasAndSpace(s: string)
    requires CommasAndSpace(s)
    ensures forall i :: 0 <= i < |Split(s, ',')| ==> AllSpace(Split(s, ',')[i])
    decreases |s|
  {
    if s != [] {
      SplitCommasAndSpace(s[1..]);
      var rest := Split(s[1..], ',');
      if s[0] != ',' {
        var first := [s[0]] + rest[0];
        assert forall k :: 0 <= k < |first| ==> IsSpace(first[k]) by {
          assert AllSpace(rest[0]);
        }
      }
    }
  }

  lemma {:induction false} DropEmptyOfBlanks(xs: seq<string>)
    requires forall i :: 0 <= i < |xs| ==> AllSpace(xs[i])
    ensures DropEmpty(TrimEach(xs)) == []
    decreases |xs|
  {
    if xs != [] {
      TrimEmptyIffAllSpace(xs[0]);
      DropEmptyOfBlanks(xs[1..]);
      assert TrimEach(xs)[1..] == TrimEach(xs[1..]);
    }
  }

  /** A text of commas and white space only gives no skills. */
  lemma ParseSkillsOfBlanks(s: string)
    requires CommasAndSpace(s)
    ensures ParseSkills(s) == []
  {
    SplitCommasAndSpace(s);
    DropEmptyOfBlanks(Split(s, ','));
  }

  // ---------------------------------------------------------------- edit and save

  /** The form filled in by `handleEditClick`: the role name and the skills text. */
  datatype EditForm = EditForm(role: string, skills: string)

  function StartEdit(u: PublicUser): EditForm
  {
    EditForm(RoleName(u.role), SkillsText(u.skills))
  }

  /** Opening a user for editing and saving it unchanged leaves the stored user as it was,
      whenever its skills are clean (an empty list included, which the update keeps). */
  lemma EditThenSaveChangesNothing(users: map<string, User>, email: string)
    requires email in users
    requires forall i :: 0 <= i < |users[email].skills| ==> CleanSkill(users[email].skills[i])
    ensures var form := StartEdit(Public(users[email]));
      UpdateUserStep(users, "admin", email, Some(ParseSkills(form.skills)), ParseRole(form.role))
      == Outcome(users, HttpReply.Reply(200, "User updated successfully"))
  {
    var u := users[email];
    ParseSkillsText(u.skills);
    RoleNameParses(u.role);
    UpdateWithOwnValues(users, email);
  }

  lemma RoleNameParses(r: Role)
    ensures ParseRole(RoleName(r)) == Some(r)
  {
    match r
    case PlainUser =>
    case Moderator =>
    case Admin =>
  }

  /** Writing back a user's own skills and role changes nothing. */
  lemma UpdateWithOwnValues(users: map<string, User>, email: string)
    requires email in users
    ensures UpdateUserStep(users, "admin", email, Some(users[email].skills), Some(users[email].role))
      == Outcome(users, HttpReply.Reply(200, "User updated successfully"))
  {
    var u := users[email];
    assert u.(skills := u.skills, role := u.role) == u;
    assert users[email := u] == users;
  }

  // ---------------------------------------------------------------- search

  /** Email test of `handleSearch` for an already lower-cased query. */
  predicate Matches(u: PublicUser, query: string)
  {
    Includes(ToLower(u.email), query)
  }

  /** `users.filter((user) => user.email.toLowerCase().includes(query))`. */
  function FilterByEmail(users: seq<PublicUser>, query: string): seq<PublicUser>
  {
    if users == [] then []
    else if Matches(users[0], query) then [users[0]] + FilterByEmail(users[1..], query)
    else FilterByEmail(users[1..], query)
  }

  /** What `handleSearch` stores: the lower-cased query and the filtered list. It always
      filters the full fetched list, so nothing of an earlier search is an input. */
  datatype SearchState = SearchState(searchQuery: string, filteredUsers: seq<PublicUser>)

  function HandleSearch(users: seq<PublicUser>, typed: string): SearchState
  {
    var query := ToLower(typed);
    SearchState(query, FilterByEmail(users, query))
  }

  /** `a` is `b` with some elements left out, the rest in the same order. */
  ghost predicate SubsequenceOf<T>(a: seq<T>, b: seq<T>)
    decreases |b|
  {
    if a == [] then true
    else if b == [] then false
    else (a[0] == b[0] && SubsequenceOf(a[1..], b[1..])) || SubsequenceOf(a, b[1..])
  }

  lemma {:induction false} FilterIsSubsequence(users: seq<PublicUser>, query: string)
    ensures SubsequenceOf(FilterByEmail(users, query), users)
    decreases |users|
  {
    if users != [] {
      FilterIsSubsequence(users[1..], query);
      var rest := FilterByEmail(users[1..], query);
      if Matches(users[0], query) {
        assert ([users[0]] + rest)[1..] == rest;
      } else if rest != [] {
        assert SubsequenceOf(rest, users[1..]);
      }
    }
  }

  lemma {:induction false} FilterMembers(users: seq<PublicUser>, query: string)
    ensures forall u :: u in FilterByEmail(users, query) <==> u in users && Matches(u, query)
    decreases |users|
  {
    if users != [] {
      FilterMembers(users[1..], query);
      assert users == [users[0]] + users[1..];
    }
  }

  lemma {:induction false} FilterAll(users: seq<PublicUser>, query: string)
    requires forall i :: 0 <= i < |users| ==> Matches(users[i], query)
    ensures FilterByEmail(users, query) == users
    decreases |users|
  {
    if users != [] {
      FilterAll(users[1..], query);
      assert users == [users[0]] + users[1..];
    }
  }

  /** The search shows, in fetched order, exactly the users whose email contains the
      typed text, ignoring case; an empty search shows everyone. */
  lemma SearchByEmail(users: seq<PublicUser>, typed: string)
    ensures var s := HandleSearch(users, typed);
      && SubsequenceOf(s.filteredUsers, users)
      && (forall u :: u in s.filteredUsers <==>
            u in users && Includes(ToLower(u.email), ToLower(typed)))
      && (typed == "" ==> s.filteredUsers == users)
  {
    FilterIsSubsequence(users, ToLower(typed));
    FilterMembers(users, ToLower(typed));
    if typed == "" {
      forall i | 0 <= i < |users| ensures Matches(users[i], "") {
        IncludesEmpty(ToLower(users[i].email));
      }
      FilterAll(users, "");
    }
  }

  /** Typing the same text in another case gives the same result. */
  lemma SearchIgnoresCase(users: seq<PublicUser>, typed: string, typed2: string)
    requires ToLower(typed) == ToLower(typed2)
    ensures HandleSearch(users, typed) == HandleSearch(users, typed2)
    ensures HandleSearch(users, ToLower(typed)) == HandleSearch(users, typed)
  {
    ToLowerIdempotent(typed);
  }
}
