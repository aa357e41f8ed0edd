/** Student records as the data file supplies them, and the card the page
    builds for each one. */
module Cards {
  import opened Text
  import opened Dates

  datatype Option<T> = None | Some(value: T)

  /** One record of the data file. A text field that is absent (or otherwise
      falsy) is the empty string; `arrival` is `None` when the arrival date
      does not parse to a valid date. */
  datatype Student = Student(
    name: string,
    school: string,
    bio: string,
    job: string,
    arrival: Option<Date>,
    profileImg: string,
    githubLink: string,
    cv: string)

  /** JavaScript's `value || fallback` on a text field. */
  function Or(s: string, fallback: string): (r: string)
    ensures r == s || (s == [] && r == fallback)
  {
    if s != [] then s else fallback
  }

  /** What a card shows, each text with the fallback the markup uses. */
  datatype CardView = CardView(
    imgSrc: string,
    imgAlt: string,
    jobText: string,
    nameText: string,
    schoolText: string,
    bioText: string,
    githubHref: string,
    githubLabel: string,
    cvHref: string,
    cvLabel: string)

  /** A card element: its `data-*` filter attributes, what it shows, and
      whether its `display` style currently lets it be seen. */
  datatype Card = Card(
    nameAttr: string,
    schoolAttr: string,
    bioAttr: string,
    jobAttr: string,
    view: CardView,
    visible: bool)

  /** The card built for one record. */
  function MakeCard(s: Student): (c: Card)
  {
    Card(
      ToLower(Or(s.name, "")),
      ToLower(Or(s.school, "")),
      ToLower(Or(s.bio, "")),
      ToLower(Or(s.job, "student")),
      CardView(
        s.profileImg,
        "Profile Picture " + Or(s.name, ""),
        ToUpper(Or(s.job, "STUDENT")),
        Or(s.name, "N/A"),
        Or(s.school, "N/A"),
        Or(s.bio, "No bio available."),
        Or(s.githubLink, "#"),
        Or(s.name, "Student") + "'s GitHub profile",
        Or(s.cv, "#"),
        Or(s.name, "Student") + "'s portfoglio"),
      true)
  }

  /** The displayed text of each field: the field itself when present, the
      fixed fallback when it is missing; a new card is visible. */
  lemma CardFallbacks(s: Student)
    ensures MakeCard(s).visible
    ensures MakeCard(s).view.nameText == (if s.name == "" then "N/A" else s.name)
    ensures MakeCard(s).view.schoolText == (if s.school == "" then "N/A" else s.school)
    ensures MakeCard(s).view.bioText == (if s.bio == "" then "No bio available." else s.bio)
    ensures MakeCard(s).view.jobText == (if s.job == "" then "STUDENT" else ToUpper(s.job))
    ensures MakeCard(s).view.githubHref == (if s.githubLink == "" then "#" else s.githubLink)
    ensures MakeCard(s).view.cvHref == (if s.cv == "" then "#" else s.cv)
  {
    UpperShownDefaultJob();
  }

  /** The filter attributes are lower case, and they are what the card shows
      up to case: a present name, school or bio is stored as shown (the
      school is stored but never searched); the job is stored as shown even
      when it is the default; a missing name, school or bio is stored as the
      empty string, not as its fallback. */
  lemma CardAttributes(s: Student)
    ensures ToLower(MakeCard(s).nameAttr) == MakeCard(s).nameAttr
    ensures ToLower(MakeCard(s).schoolAttr) == MakeCard(s).schoolAttr
    ensures ToLower(MakeCard(s).bioAttr) == MakeCard(s).bioAttr
    ensures ToLower(MakeCard(s).jobAttr) == MakeCard(s).jobAttr
    ensures MakeCard(s).jobAttr == ToLower(MakeCard(s).view.jobText)
    ensures MakeCard(s).jobAttr == (if s.job == "" then "student" else ToLower(s.job))
    ensures s.name != "" ==> MakeCard(s).nameAttr == ToLower(MakeCard(s).view.nameText)
    ensures s.school != "" ==> MakeCard(s).schoolAttr == ToLower(MakeCard(s).view.schoolText)
    ensures s.bio != "" ==> MakeCard(s).bioAttr == ToLower(MakeCard(s).view.bioText)
    ensures s.name == "" ==> MakeCard(s).nameAttr == ""
    ensures s.school == "" ==> MakeCard(s).schoolAttr == ""
    ensures s.bio == "" ==> MakeCard(s).bioAttr == ""
  {
    AttributesLowered(s);
    JobAttribute(s);
  }

  lemma AttributesLowered(s: Student)
    ensures ToLower(MakeCard(s).nameAttr) == MakeCard(s).nameAttr
    ensures ToLower(MakeCard(s).schoolAttr) == MakeCard(s).schoolAttr
    ensures ToLower(MakeCard(s).bioAttr) == MakeCard(s).bioAttr
    ensures ToLower(MakeCard(s).jobAttr) == MakeCard(s).jobAttr
  {
    LowerIdempotent(Or(s.name, ""));
    LowerIdempotent(Or(s.school, ""));
    LowerIdempotent(Or(s.bio, ""));
    LowerIdempotent(Or(s.job, "student"));
  }

  lemma JobAttribute(s: Student)
    ensures MakeCard(s).jobAttr == ToLower(MakeCard(s).view.jobText)
    ensures MakeCard(s).jobAttr == (if s.job == "" then "student" else ToLower(s.job))
  {
    if s.job == "" {
      LowerDefaultJob();
      LowerOfUpper("STUDENT");
      LowerShownDefaultJob();
    } else {
      LowerOfUpper(s.job);
    }
  }

  /** The default job, searched in lower case. */
  lemma LowerDefaultJob()
    ensures ToLower("student") == "student"
  {
    var r := ToLower("student");
    assert r[0] == 's' && r[1] == 't' && r[2] == 'u' && r[3] == 'd' && r[4] == 'e' && r[5] == 'n' && r[6] == 't';
  }

  /** The default job as shown, lowered for the search. */
  lemma LowerShownDefaultJob()
    ensures ToLower("STUDENT") == "student"
  {
    var r := ToLower("STUDENT");
    assert r[0] == 's' && r[1] == 't' && r[2] == 'u' && r[3] == 'd' && r[4] == 'e' && r[5] == 'n' && r[6] == 't';
  }

  /** The default job as shown is already in capitals. */
  lemma UpperShownDefaultJob()
    ensures ToUpper("STUDENT") == "STUDENT"
  {
    var r := ToUpper("STUDENT");
    assert r[0] == 'S' && r[1] == 'T' && r[2] == 'U' && r[3] == 'D' && r[4] == 'E' && r[5] == 'N' && r[6] == 'T';
  }
}
