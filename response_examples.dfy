/**
 * The six replies jsonparse_debug.py feeds to `parse_response_content`, and the value each one
 * yields. Each reply is written token by token: the pieces joined are the reply's characters.
 */
module ResponseExamples {
  import opened Json
  import opened PyText
  import opened JsonText
  import opened ResponseParser

  /** A character that a JSON string holds as it is, without an escape. */
  predicate Plain(c: char) {
    c != '"' && c != '\\' && (c as int) >= 0x20
  }

  predicate AllPlain(t: string) {
    forall i | 0 <= i < |t| :: Plain(t[i])
  }

  /** A string of plain characters needs no escape. */
  lemma {:induction false} EscapePlain(t: string)
    requires AllPlain(t)
    ensures Escape(t) == t
  {
    if t != [] {
      EscapePlain(t[1..]);
      assert [t[0]] + t[1..] == t;
    }
  }

  /** A plain member `"key": "text"` is written as the quoted key, the colon and the quoted text. */
  lemma MemberText(key: string, text: string, lay: Layout)
    requires AllPlain(key) && AllPlain(text)
    ensures Member((key, Str(text)), lay) == "\"" + key + "\"" + ":" + lay.colon + ("\"" + text + "\"")
  {
    EscapePlain(key);
    EscapePlain(text);
  }

  /** The record the classifier is asked for: three string fields, in the order the replies give them. */
  function Record(classification: string, company: string, position: string): (r: Value)
    ensures r.Obj? && Keys(r.members) == ["classification", "company", "position"]
  {
    Obj([("classification", Str(classification)), ("company", Str(company)), ("position", Str(position))])
  }

  lemma RecordWellFormed(classification: string, company: string, position: string)
    ensures WellFormed(Record(classification, company, position))
  {
    var ms := Record(classification, company, position).members;
    assert DistinctKeys(ms) by {
      assert Keys(ms) == ["classification", "company", "position"];
    }
  }

  /** Three members are written as the first, a comma, and the other two. */
  lemma MembersThree(ms: seq<(string, Value)>, lay: Layout)
    requires |ms| == 3
    ensures Members(ms, lay)
      == Member(ms[0], lay) + "," + lay.comma + (Member(ms[1], lay) + "," + lay.comma + Member(ms[2], lay))
  {
    var rest := ms[1..];
    assert rest[0] == ms[1] && rest[1..] == [ms[2]];
    assert Members(rest[1..], lay) == Member(ms[2], lay);
    assert Members(rest, lay) == Member(ms[1], lay) + "," + lay.comma + Member(ms[2], lay);
  }

  /** Regrouping the pieces of a three-member object into one left-to-right sequence of tokens. */
  lemma Flatten(open: string, k0: string, v0: string, k1: string, v1: string, k2: string, v2: string,
                colon: string, comma: string, close: string)
    ensures "{" + open
            + (k0 + ":" + colon + v0 + "," + comma + (k1 + ":" + colon + v1 + "," + comma + (k2 + ":" + colon + v2)))
            + close + "}"
         == "{" + open + k0 + ":" + colon + v0 + "," + comma + k1 + ":" + colon + v1 + "," + comma
            + k2 + ":" + colon + v2 + close + "}"
  {
  }

  /** The field names are plain, and each is written as itself between quotes. */
  lemma KeyTexts()
    ensures AllPlain("classification") && AllPlain("company") && AllPlain("position")
    ensures "\"" + "classification" + "\"" == "\"classification\""
    ensures "\"" + "company" + "\"" == "\"company\""
    ensures "\"" + "position" + "\"" == "\"position\""
  {
  }

  /**
   * A record whose field texts are plain is written token by token: `{`, the layout's opening space,
   * then each quoted name, `:`, the space after it, the quoted text, and `,` with its space between
   * the fields, then the closing space and `}`.
   */
  lemma RecordText(classification: string, company: string, position: string, lay: Layout,
                   q0: string, q1: string, q2: string)
    requires AllPlain(classification) && AllPlain(company) && AllPlain(position)
    requires q0 == "\"" + classification + "\"" && q1 == "\"" + company + "\"" && q2 == "\"" + position + "\""
    ensures Serialize(Record(classification, company, position), lay)
         == "{" + lay.open
            + "\"classification\"" + ":" + lay.colon + q0 + "," + lay.comma
            + "\"company\"" + ":" + lay.colon + q1 + "," + lay.comma
            + "\"position\"" + ":" + lay.colon + q2
            + lay.close + "}"
  {
    var ms := Record(classification, company, position).members;
    KeyTexts();
    MemberText("classification", classification, lay);
    MemberText("company", company, lay);
    MemberText("position", position, lay);
    MembersThree(ms, lay);
    Flatten(lay.open, "\"classification\"", q0, "\"company\"", q1, "\"position\"", q2, lay.colon, lay.comma, lay.close);
  }

  /** One space inside the braces and after each `:` and `,`: the layout of replies 1, 2 and 4. */
  const Spaced := Layout(" ", " ", " ", " ")

  /** A space after each `:` and nothing else: the layout of reply 3. */
  const Compact := Layout("", " ", "", "")

  lemma LayoutsValid()
    ensures ValidLayout(Spaced) && ValidLayout(Compact) && AllSpace("   ")
    ensures Compact.open == [] && Compact.colon == " " && Compact.comma == [] && Compact.close == []
  {
  }

  /** A reply that is exactly the text of a well-formed value is read back as that value. */
  lemma StrictReply(v: Value, lay: Layout, reply: string)
    requires WellFormed(v) && ValidLayout(lay) && reply == Serialize(v, lay)
    ensures ParseResponseContent(reply) == v
  {
    SerializedStart(v, lay);
    OpenerNotSpace(reply[0]);
    SerializedEnd(v, lay);
    StripUnpadded(reply);
    LoadsSerialized(v, lay);
  }

  // Each field text of the replies is plain, and its quoted form is the text between two quotes.

  lemma RejectionText()
    ensures AllPlain("Rejection") && "\"Rejection\"" == "\"" + "Rejection" + "\""
  {
  }

  lemma OxfordUniversityText()
    ensures AllPlain("Oxford University") && "\"Oxford University\"" == "\"" + "Oxford University" + "\""
  {
  }

  lemma MathematicsText()
    ensures AllPlain("Mathematics") && "\"Mathematics\"" == "\"" + "Mathematics" + "\""
  {
  }

  lemma InterviewInvitationText()
    ensures AllPlain("Interview Invitation") && "\"Interview Invitation\"" == "\"" + "Interview Invitation" + "\""
  {
  }

  lemma AmazonText()
    ensures AllPlain("Amazon") && "\"Amazon\"" == "\"" + "Amazon" + "\""
  {
  }

  lemma SoftwareEngineerText()
    ensures AllPlain("Software Engineer") && "\"Software Engineer\"" == "\"" + "Software Engineer" + "\""
  {
  }

  lemma UniversityOfCambridgeText()
    ensures AllPlain("University of Cambridge") && "\"University of Cambridge\"" == "\"" + "University of Cambridge" + "\""
  {
  }

  lemma PgceMathsProgramText()
    ensures AllPlain("PGCE Maths program") && "\"PGCE Maths program\"" == "\"" + "PGCE Maths program" + "\""
  {
  }

  lemma JobApplicationText()
    ensures AllPlain("Job Application") && "\"Job Application\"" == "\"" + "Job Application" + "\""
  {
  }

  lemma GoogleText()
    ensures AllPlain("Google") && "\"Google\"" == "\"" + "Google" + "\""
  {
  }

  lemma BackendDeveloperText()
    ensures AllPlain("Backend Developer") && "\"Backend Developer\"" == "\"" + "Backend Developer" + "\""
  {
  }

  /** jsonparse_debug.py line 49: a well-formed reply. */
  const Reply1 := "{" + " " + "\"classification\"" + ":" + " " + "\"Rejection\"" + "," + " "
                  + "\"company\"" + ":" + " " + "\"Oxford University\"" + "," + " "
                  + "\"position\"" + ":" + " " + "\"Mathematics\"" + " " + "}"

  /** The first reply is read by the strict tier as the record it spells out. */
  lemma Reply1Parsed()
    ensures ParseResponseContent(Reply1) == Record("Rejection", "Oxford University", "Mathematics")
  {
    var v := Record("Rejection", "Oxford University", "Mathematics");
    RejectionText();
    OxfordUniversityText();
    MathematicsText();
    RecordText("Rejection", "Oxford University", "Mathematics", Spaced,
               "\"Rejection\"", "\"Oxford University\"", "\"Mathematics\"");
    RecordWellFormed("Rejection", "Oxford University", "Mathematics");
    LayoutsValid();
    StrictReply(v, Spaced, Reply1);
  }

  /** A well-formed value with space characters on either side is read back as that value. */
  lemma PaddedReply(w1: string, v: Value, lay: Layout, body: string, w2: string)
    requires AllSpace(w1) && AllSpace(w2)
    requires WellFormed(v) && ValidLayout(lay) && body == Serialize(v, lay)
    ensures ParseResponseContent(w1 + body + w2) == v
  {
    RoundTrip(w1, v, lay, w2);
  }

  /** jsonparse_debug.py line 52: a well-formed reply padded with three spaces on each side. */
  const Reply2 := "   "
                  + ("{" + " " + "\"classification\"" + ":" + " " + "\"Interview Invitation\"" + "," + " "
                     + "\"company\"" + ":" + " " + "\"Amazon\"" + "," + " "
                     + "\"position\"" + ":" + " " + "\"Software Engineer\"" + " " + "}")
                  + "   "

  /** The padding of the second reply is stripped before the strict tier reads the record. */
  lemma Reply2Parsed()
    ensures ParseResponseContent(Reply2) == Record("Interview Invitation", "Amazon", "Software Engineer")
  {
    var v := Record("Interview Invitation", "Amazon", "Software Engineer");
    InterviewInvitationText();
    AmazonText();
    SoftwareEngineerText();
    RecordText("Interview Invitation", "Amazon", "Software Engineer", Spaced,
               "\"Interview Invitation\"", "\"Amazon\"", "\"Software Engineer\"");
    RecordWellFormed("Interview Invitation", "Amazon", "Software Engineer");
    LayoutsValid();
    PaddedReply("   ", v, Spaced, Serialize(v, Spaced), "   ");
  }

  /** With the compact layout the empty spacing pieces drop out of a record's text. */
  lemma CompactTokens(k0: string, q0: string, k1: string, q1: string, k2: string, q2: string)
    ensures "{" + Compact.open + k0 + ":" + Compact.colon + q0 + "," + Compact.comma
            + k1 + ":" + Compact.colon + q1 + "," + Compact.comma
            + k2 + ":" + Compact.colon + q2 + Compact.close + "}"
         == "{" + k0 + ":" + " " + q0 + "," + k1 + ":" + " " + q1 + "," + k2 + ":" + " " + q2 + "}"
  {
    LayoutsValid();
  }

  /** jsonparse_debug.py line 54: a well-formed reply with no space except after each `:`. */
  const Reply3 := "{" + "\"classification\"" + ":" + " " + "\"Interview Invitation\"" + ","
                  + "\"company\"" + ":" + " " + "\"University of Cambridge\"" + ","
                  + "\"position\"" + ":" + " " + "\"PGCE Maths program\"" + "}"

  /** The compact third reply is read by the strict tier. */
  lemma Reply3Parsed()
    ensures ParseResponseContent(Reply3) == Record("Interview Invitation", "University of Cambridge", "PGCE Maths program")
  {
    var v := Record("Interview Invitation", "University of Cambridge", "PGCE Maths program");
    InterviewInvitationText();
    UniversityOfCambridgeText();
    PgceMathsProgramText();
    RecordText("Interview Invitation", "University of Cambridge", "PGCE Maths program", Compact,
               "\"Interview Invitation\"", "\"University of Cambridge\"", "\"PGCE Maths program\"");
    RecordWellFormed("Interview Invitation", "University of Cambridge", "PGCE Maths program");
    LayoutsValid();
    CompactTokens("\"classification\"", "\"Interview Invitation\"", "\"company\"", "\"University of Cambridge\"",
                  "\"position\"", "\"PGCE Maths program\"");
    StrictReply(v, Compact, Reply3);
  }

  /** An object wrapped in prose that holds no brace and begins with neither `"` nor `[` is salvaged. */
  lemma WrappedReply(p1: string, v: Value, lay: Layout, body: string, p2: string)
    requires p1 != [] && !IsSpace(p1[0]) && p1[0] != '"' && p1[0] != '[' && '{' !in p1
    requires '}' !in p2 && (p2 == [] || !IsSpace(p2[|p2| - 1]))
    requires v.Obj? && WellFormed(v) && ValidLayout(lay) && body == Serialize(v, lay)
    ensures ParseResponseContent(p1 + body + p2) == v
  {
    ProseWrappedRecovered(p1, v.members, lay, p2);
  }

  /** jsonparse_debug.py line 57: a well-formed object inside a Markdown code fence. */
  const Reply4 := "```json\n"
                  + ("{" + " " + "\"classification\"" + ":" + " " + "\"Job Application\"" + "," + " "
                     + "\"company\"" + ":" + " " + "\"Google\"" + "," + " "
                     + "\"position\"" + ":" + " " + "\"Backend Developer\"" + " " + "}")
                  + "\n```"

  /** An object inside a ```json code fence is salvaged from the brace span. */
  lemma FencedReply(v: Value, body: string)
    requires v.Obj? && WellFormed(v) && body == Serialize(v, Spaced)
    ensures ParseResponseContent("```json\n" + body + "\n```") == v
  {
    assert !IsSpace("```json\n"[0]) && "```json\n"[0] == '`' && '{' !in "```json\n";
    assert '}' !in "\n```" && !IsSpace("\n```"[3]);
    LayoutsValid();
    WrappedReply("```json\n", v, Spaced, body, "\n```");
  }

  /** The fenced fourth reply fails the strict tier and is recovered from the brace span. */
  lemma Reply4Parsed()
    ensures ParseResponseContent(Reply4) == Record("Job Application", "Google", "Backend Developer")
  {
    var v := Record("Job Application", "Google", "Backend Developer");
    JobApplicationText();
    GoogleText();
    BackendDeveloperText();
    RecordText("Job Application", "Google", "Backend Developer", Spaced,
               "\"Job Application\"", "\"Google\"", "\"Backend Developer\"");
    RecordWellFormed("Job Application", "Google", "Backend Developer");
    FencedReply(v, Serialize(v, Spaced));
  }

  /** jsonparse_debug.py line 60: an object whose closing brace is missing. */
  const Reply5 := "{" + " " + "\"classification\"" + ":" + " " + "\"Rejection\"" + "," + " "
                  + "\"company\"" + ":" + " " + "\"Microsoft\"" + "," + " "
                  + "\"position\"" + ":" + " " + "\"AI Researcher\""

  /** A reply that begins with `{` and holds no `}` yields the sentinel. */
  lemma UnclosedReply(reply: string)
    requires reply != [] && reply[0] == '{' && !IsSpace(reply[|reply| - 1]) && '}' !in reply
    ensures ParseResponseContent(reply) == Sentinel()
  {
    StripUnpadded(reply);
    UnclosedObjectSentinel(reply);
  }

  lemma Reply5Shape()
    ensures Reply5 != [] && Reply5[0] == '{' && !IsSpace(Reply5[|Reply5| - 1]) && '}' !in Reply5
  {
  }

  /** The truncated fifth reply has no `}` to close a span, so the sentinel is returned. */
  lemma Reply5Parsed()
    ensures ParseResponseContent(Reply5) == Sentinel()
  {
    Reply5Shape();
    UnclosedReply(Reply5);
  }

  /** jsonparse_debug.py line 63: prose with no JSON in it. */
  const Reply6 := "This is not JSON at all!"

  /** A reply that starts with no JSON opener, has no space at either end and holds no `{` yields the sentinel. */
  lemma ProseReply(reply: string)
    requires reply != [] && !IsSpace(reply[0]) && !IsSpace(reply[|reply| - 1])
    requires !Opener(reply[0]) && '{' !in reply
    ensures ParseResponseContent(reply) == Sentinel()
  {
    StripUnpadded(reply);
    ProseSentinel(reply);
  }

  lemma Reply6Shape()
    ensures !IsSpace(Reply6[0]) && !Opener(Reply6[0]) && !IsSpace(Reply6[|Reply6| - 1]) && '{' !in Reply6
  {
  }

  /** The sixth reply neither parses nor holds a brace, so the sentinel is returned. */
  lemma Reply6Parsed()
    ensures ParseResponseContent(Reply6) == Sentinel()
  {
    Reply6Shape();
    ProseReply(Reply6);
  }
}
