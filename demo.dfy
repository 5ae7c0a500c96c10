/**
 * The page's built-in data: the four people of the group and the three
 * demonstration publications, with the filter results the page shows for them.
 */
module Demo {
  import opened Wrappers
  import opened Text
  import opened Filtering
  import opened Group
  import opened Publications
  import opened YearOptions

  const Jana := Person(
    "Prof. Debnarayan Jana", PI, "Condensed-Matter Physics & Materials Science",
    "email@example.edu", "",
    map["scholar" := "https://scholar.google.com/citations?user=43SR0GsAAAAJ&hl=en", "orcid" := "https://orcid.org/"],
    None)
  const Senior := Person("Dr. B. Senior", Postdoc, "Oxide thin films", "b@example.edu", "", map["github" := "#"], None)
  const Student := Person("C. Student", PhD, "2D materials growth", "c@example.edu", "", map["linkedin" := "#"], None)
  const Alum := Person("D. Alum", Alumni, "Device physics", "d@example.com", "", map["website" := "#"], Some(2024))

  const People: seq<Person> := [Jana, Senior, Student, Alum]

  const Pub1 := Publication(
    "1",
    "Role of Defects in Tailoring Structural, " + "Electrical and Optical Properties of ZnO",
    Some(["S. Dutta", "S. Chattopadhyay", "A. Sarkar", "M. Chakrabarti", "D. Sanyal", "Debnarayan Jana"]),
    Some("Progress in Materials Science"),
    2009,
    Some("10.1016/j.pmatsci.2008.07.002"), Some("#"), None)
  const Pub2 := Publication(
    "2",
    "Optical/electrical behavior " + "in oxide thin films",
    Some(["A. Researcher", "Debnarayan Jana"]),
    Some("Journal Example"),
    2014,
    Some("10.xxxx/xxxxx"), None, None)
  const Pub3 := Publication(
    "3",
    "2D materials growth and " + "transport",
    Some(["Debnarayan Jana"]),
    Some("Conference Example"),
    2018,
    None, Some("#"), None)

  const DemoPubs: seq<Publication> := [Pub1, Pub2, Pub3]

  // The longer titles are written as two literals joined with `+`; the value is
  // the page's title, and each half is short enough to check character by character.

  /** The "All" button shows the four people in their listed order. */
  lemma DemoAllRoles()
    ensures PeopleShown(People, AllRoles) == People
  {
    AllRolesShowsEveryone(People);
  }

  /** The "PhD" button shows only C. Student. */
  lemma DemoPhD()
    ensures PeopleShown(People, OnlyRole(PhD)) == [Student]
    ensures PeopleShown(People, OnlyRole(PhD))[0].name == "C. Student"
  {
    FilterSelectsOne(People, p => IsShown(OnlyRole(PhD), p), 2);
  }

  lemma Pub1FieldsLackTwo()
    ensures '2' !in Pub1.title && '2' !in Pub1.venue.value
    ensures forall k :: 0 <= k < |Pub1.authors.value| ==> '2' !in Pub1.authors.value[k]
  {
    Pub1AuthorsLackTwo();
    Pub1TitleLacksTwo();
  }

  lemma Pub1TitleLacksTwo()
    ensures '2' !in Pub1.title
  {
    assert '2' !in "Role of Defects in Tailoring Structural, ";
    assert '2' !in "Electrical and Optical Properties of ZnO";
  }

  lemma Pub1AuthorsLackTwo()
    ensures forall k :: 0 <= k < |Pub1.authors.value| ==> '2' !in Pub1.authors.value[k]
  {
    var names := Pub1.authors.value;
    assert '2' !in names[0] && '2' !in names[1] && '2' !in names[2];
    assert '2' !in names[3] && '2' !in names[4] && '2' !in names[5];
  }

  lemma Pub2FieldsLackTwo()
    ensures '2' !in Pub2.title && '2' !in Pub2.venue.value
    ensures forall k :: 0 <= k < |Pub2.authors.value| ==> '2' !in Pub2.authors.value[k]
  {
    var names := Pub2.authors.value;
    assert '2' !in names[0] && '2' !in names[1];
    assert '2' !in "Optical/electrical behavior ";
    assert '2' !in "in oxide thin films";
  }

  /** Neither of the first two publications is found by "2d": their haystacks have no '2'. */
  lemma FirstTwoLack2d()
    ensures !IsListed(Pub1, "2d", AllYearsLabel) && !IsListed(Pub2, "2d", AllYearsLabel)
  {
    Pub1FieldsLackTwo();
    HaystackLacksChar(Pub1, '2');
    Pub2FieldsLackTwo();
    HaystackLacksChar(Pub2, '2');
    assert Lower("2d") == "2d";
    AbsentFirstCharNotContained(Haystack(Pub1), "2d");
    AbsentFirstCharNotContained(Haystack(Pub2), "2d");
  }

  /** Publication "3" is found by "2d": its title starts with "2D". */
  lemma Pub3Has2d()
    ensures IsListed(Pub3, "2d", AllYearsLabel)
  {
    assert OccursAt(Pub3.title, "2D", 0);
    LowerKeepsContains(Pub3.title, "2D");
    assert Lower("2D") == Lower("2d");
    FieldHitIsFound(Pub3, "2d");
  }

  lemma OnlyThirdHas2d()
    ensures IsListed(DemoPubs[2], "2d", AllYearsLabel)
    ensures forall j :: 0 <= j < |DemoPubs| && j != 2 ==> !IsListed(DemoPubs[j], "2d", AllYearsLabel)
  {
    FirstTwoLack2d();
    Pub3Has2d();
  }

  /** Searching "2d" over all years lists only publication "3". */
  lemma DemoQuery2d()
    ensures Listed(DemoPubs, "2d", AllYearsLabel) == [Pub3]
    ensures Listed(DemoPubs, "2d", AllYearsLabel)[0].id == "3"
  {
    OnlyThirdHas2d();
    ListedSelectsOne(DemoPubs, "2d", AllYearsLabel, 2);
  }

  /**
   * A query may run across a field boundary: "transport Debnarayan" is the
   * end of the title, the separating space and the start of the first author.
   */
  lemma DemoQueryAcrossFields()
    ensures IsListed(Pub3, "transport" + " " + "Debnarayan", AllYearsLabel)
  {
    assert Pub3.authors.value[0] == "Debnarayan" + " Jana";
    QueryAcrossTitleAndFirstAuthor(Pub3, "2D materials growth and ", "transport", "Debnarayan", " Jana");
  }

  /** The years of the demonstration publications. */
  lemma DemoHasYear(y: int)
    ensures HasYear(DemoPubs, y) <==> y in [2018, 2014, 2009]
  {
    if y in [2018, 2014, 2009] {
      assert y == 2018 ==> DemoPubs[2] in DemoPubs;
      assert y == 2014 ==> DemoPubs[1] in DemoPubs;
      assert y == 2009 ==> DemoPubs[0] in DemoPubs;
    }
  }

  /** The year selector offers "All", 2018, 2014, 2009. */
  lemma DemoYearOptions()
    ensures Options(DemoPubs) == [AllYears, Year(2018), Year(2014), Year(2009)]
  {
    forall y
      ensures HasYear(DemoPubs, y) <==> y in [2018, 2014, 2009]
    {
      DemoHasYear(y);
    }
    OptionsDeterminedByYears(DemoPubs, [2018, 2014, 2009]);
    ThreeOptions(2018, 2014, 2009);
  }

  lemma ThreeOptions(a: int, b: int, c: int)
    ensures ToOptions([a, b, c]) == [Year(a), Year(b), Year(c)]
  {
  }
}
