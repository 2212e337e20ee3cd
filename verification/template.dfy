/**
 Personalisation of one message (main.py, lines 164-175 and 256-266): the
 tracking beacon is appended to the body, then, column by column in table
 order, every `{{column}}` in the subject and in the body is replaced by the
 row's value for that column.
 */
module Template {
  import opened Text

  /** One recipient row: column name to the cell's string form. */
  type Row = map<string, string>

  /** What is handed to the transport for one recipient. */
  datatype Message = Message(recipient: string, subject: string, html: string)

  /** The placeholder `{{column}}`. */
  function Placeholder(column: string): string
  {
    "{{" + column + "}}"
  }

  /** `row.get(column, '')`: the cell, or the empty string for a missing column. */
  function Cell(row: Row, column: string): string
  {
    if column in row then row[column] else ""
  }

  /** Address of the open-tracking beacon for one recipient. */
  function TrackingUrl(email: string): string
  {
    "http://127.0.0.1:5001/track/" + email
  }

  /** The body followed by the invisible beacon image. */
  function WithBeacon(body: string, email: string): (r: string)
    ensures |r| >= |body| + 14 && r[..|body|] == body
    ensures r[|body|..|body| + 14] == "<br><img src='"
    ensures OccursAt(r, TrackingUrl(email), |body| + 14)
  {
    body + "<br><img src='" + TrackingUrl(email) + "' alt='' style='display:none;'>"
  }

  /** The left fold over `columns` of `text.replace("{{c}}", str(row[c]))`. */
  function Render(text: string, columns: seq<string>, row: Row): string
    decreases |columns|
  {
    if columns == [] then text
    else Render(Replace(text, Placeholder(columns[0]), Cell(row, columns[0])), columns[1..], row)
  }

  /** The personalised subject and beaconed body for one recipient. */
  function Compose(columns: seq<string>, row: Row, email: string, subject: string, body: string): (m: Message)
    ensures m.recipient == email
    ensures !Occurs(subject, "{{") ==> m.subject == subject
    ensures !Occurs(WithBeacon(body, email), "{{") ==> m.html == WithBeacon(body, email)
  {
    assert !Occurs(subject, "{{") ==> Render(subject, columns, row) == subject by {
      if !Occurs(subject, "{{") {
        RenderPlainText(subject, columns, row);
      }
    }
    assert !Occurs(WithBeacon(body, email), "{{") ==> Render(WithBeacon(body, email), columns, row) == WithBeacon(body, email) by {
      if !Occurs(WithBeacon(body, email), "{{") {
        RenderPlainText(WithBeacon(body, email), columns, row);
      }
    }
    Message(email, Render(subject, columns, row), Render(WithBeacon(body, email), columns, row))
  }

  /**
   A subject, and a body with its beacon, that hold no placeholder of any
   column are sent exactly as written.
   */
  lemma ComposeUntouched(columns: seq<string>, row: Row, email: string, subject: string, body: string)
    requires forall c :: c in columns ==> !Occurs(subject, Placeholder(c))
    requires forall c :: c in columns ==> !Occurs(WithBeacon(body, email), Placeholder(c))
    ensures Compose(columns, row, email, subject, body) == Message(email, subject, WithBeacon(body, email))
  {
    RenderUntouched(subject, columns, row);
    RenderUntouched(WithBeacon(body, email), columns, row);
  }

  /** Rendering over two runs of columns is rendering over the first, then over the second. */
  lemma {:induction false} RenderFold(text: string, first: seq<string>, second: seq<string>, row: Row)
    ensures Render(text, first + second, row) == Render(Render(text, first, row), second, row)
    decreases |first|
  {
    if first == [] {
      assert first + second == second;
    } else {
      assert (first + second)[0] == first[0];
      assert (first + second)[1..] == first[1..] + second;
      RenderFold(Replace(text, Placeholder(first[0]), Cell(row, first[0])), first[1..], second, row);
    }
  }

  /** Text that holds no placeholder of any column comes back unchanged. */
  lemma {:induction false} RenderUntouched(text: string, columns: seq<string>, row: Row)
    ensures (forall c :: c in columns ==> !Occurs(text, Placeholder(c))) ==> Render(text, columns, row) == text
    decreases |columns|
  {
    if columns != [] && forall c :: c in columns ==> !Occurs(text, Placeholder(c)) {
      assert columns[0] in columns;
      ReplaceAbsent(text, Placeholder(columns[0]), Cell(row, columns[0]));
      forall c | c in columns[1..]
        ensures !Occurs(text, Placeholder(c))
      {
        assert c in columns;
      }
      RenderUntouched(text, columns[1..], row);
    }
  }

  /** Text containing no `{{` is returned unchanged, whatever the columns and the row. */
  lemma RenderPlainText(text: string, columns: seq<string>, row: Row)
    requires !Occurs(text, "{{")
    ensures Render(text, columns, row) == text
  {
    forall c | c in columns
      ensures !Occurs(text, Placeholder(c))
    {
      OccursPrefix(text, Placeholder(c), 2);
      assert Placeholder(c)[..2] == "{{";
    }
    RenderUntouched(text, columns, row);
  }

  /** `s` contains no curly brace at all. */
  predicate BraceFree(s: string)
  {
    forall i :: 0 <= i < |s| ==> s[i] != '{' && s[i] != '}'
  }

  /** The placeholder of one brace-free column never occurs inside that of another. */
  lemma PlaceholderDistinct(c: string, d: string)
    requires BraceFree(c) && BraceFree(d) && c != d
    ensures !Occurs(Placeholder(d), Placeholder(c))
  {
    var p, q := Placeholder(d), Placeholder(c);
    forall i | 0 <= i <= |p|
      ensures !OccursAt(p, q, i)
    {
      if i + |q| <= |p| {
        var w := p[i..i + |q|];
        if i == 0 && |c| < |d| {
          assert w[|c| + 2] == d[|c|] != q[|c| + 2];
        } else if i == 0 {
          var k :| 0 <= k < |c| && c[k] != d[k];
          assert w[k + 2] == d[k] != q[k + 2];
        } else if i == 1 {
          assert w[1] == p[2] != q[1];
        } else {
          assert w[0] == p[i] != q[0];
        }
      }
    }
  }

  /** A placeholder naming no column stays verbatim when columns are brace-free. */
  lemma UnknownPlaceholderAlone(d: string, columns: seq<string>, row: Row)
    requires BraceFree(d) && d !in columns
    requires forall c :: c in columns ==> BraceFree(c)
    ensures Render(Placeholder(d), columns, row) == Placeholder(d)
  {
    forall c | c in columns
      ensures !Occurs(Placeholder(d), Placeholder(c))
    {
      PlaceholderDistinct(c, d);
    }
    RenderUntouched(Placeholder(d), columns, row);
  }

  /** The only `{` in the placeholder of a brace-free column are its first two characters. */
  lemma OpenBraces(c: string)
    requires BraceFree(c)
    ensures forall k :: 0 <= k < |Placeholder(c)| ==> (Placeholder(c)[k] == '{' <==> k < 2)
  {
    var p := Placeholder(c);
    forall k | 0 <= k < |p|
      ensures p[k] == '{' <==> k < 2
    {
      if 2 <= k < |c| + 2 {
        assert p[k] == c[k - 2];
      }
    }
  }

  /** An occurrence of `pat` at `j`, read character by character. */
  lemma OccursAtChars(text: string, pat: string, j: int)
    requires OccursAt(text, pat, j)
    ensures forall m :: j <= m < j + |pat| ==> text[m] == pat[m - j]
  {
    forall m | j <= m < j + |pat|
      ensures text[m] == pat[m - j]
    {
      assert text[j..j + |pat|][m - j] == text[m];
    }
  }

  /**
   An occurrence of `{{d}}` cannot start strictly inside an occurrence of
   `{{c}}`: it begins with two `{`, and `{{c}}` holds no `{` past its first two
   characters.
   */
  lemma PlaceholderStartsApart(text: string, c: string, d: string, j: int, i: int)
    requires BraceFree(c) && BraceFree(d)
    requires OccursAt(text, Placeholder(c), j) && OccursAt(text, Placeholder(d), i)
    ensures !(j < i < j + |Placeholder(c)|)
  {
    OpenBraces(c);
    OccursAtChars(text, Placeholder(c), j);
    OccursAtChars(text, Placeholder(d), i);
    assert text[i] == '{' && text[i + 1] == '{';
  }

  /**
   Occurrences of the placeholders of two different brace-free columns never
   overlap, in any text.
   */
  lemma PlaceholdersApart(text: string, c: string, d: string, j: int, i: int)
    requires BraceFree(c) && BraceFree(d) && c != d
    ensures OccursAt(text, Placeholder(c), j) && OccursAt(text, Placeholder(d), i) ==>
              j + |Placeholder(c)| <= i || i + |Placeholder(d)| <= j
  {
    var p, q := Placeholder(c), Placeholder(d);
    if OccursAt(text, p, j) && OccursAt(text, q, i) {
      PlaceholderStartsApart(text, c, d, j, i);
      PlaceholderStartsApart(text, d, c, i, j);
      if i == j {
        if |p| <= |q| {
          assert q[..|p|] == text[i..i + |p|] == p;
          assert OccursAt(q, p, 0);
          PlaceholderDistinct(c, d);
        } else {
          assert p[..|q|] == text[i..i + |q|] == q;
          assert OccursAt(p, q, 0);
          PlaceholderDistinct(d, c);
        }
      }
    }
  }

  /**
   Replacing the placeholder of one brace-free column keeps every occurrence
   of another's: the two never overlap, so the scan never cuts into it.
   */
  lemma {:induction false} ReplaceKeepsPlaceholder(text: string, c: string, value: string, d: string)
    requires BraceFree(c) && BraceFree(d) && c != d
    ensures Occurs(text, Placeholder(d)) ==> Occurs(Replace(text, Placeholder(c), value), Placeholder(d))
    decreases |text|, 1
  {
    var p, q := Placeholder(c), Placeholder(d);
    if Occurs(text, q) {
      var i :| 0 <= i <= |text| && OccursAt(text, q, i);
      if |text| < |p| {
      } else if text[..|p|] == p {
        KeepPastNeedle(text, c, value, d, i);
      } else if i >= 1 {
        KeepPastFirst(text, c, value, d, i);
      } else {
        KeepAtFront(text, c, value, d);
      }
    }
  }

  /** The step of `ReplaceKeepsPlaceholder` when the text starts with the needle. */
  lemma {:induction false} KeepPastNeedle(text: string, c: string, value: string, d: string, i: nat)
    requires BraceFree(c) && BraceFree(d) && c != d
    requires OccursAt(text, Placeholder(d), i) && |text| >= |Placeholder(c)|
    requires text[..|Placeholder(c)|] == Placeholder(c)
    ensures Occurs(Replace(text, Placeholder(c), value), Placeholder(d))
    decreases |text|, 0
  {
    var p, q := Placeholder(c), Placeholder(d);
    assert OccursAt(text, p, 0);
    PlaceholdersApart(text, c, d, 0, i);
    var rest := text[|p|..];
    assert rest[i - |p|..i - |p| + |q|] == text[i..i + |q|];
    assert OccursAt(rest, q, i - |p|);
    ReplaceKeepsPlaceholder(rest, c, value, d);
    var tail := Replace(rest, p, value);
    var j :| 0 <= j <= |tail| && OccursAt(tail, q, j);
    var r := value + tail;
    assert r[|value| + j..|value| + j + |q|] == tail[j..j + |q|];
    assert OccursAt(r, q, |value| + j);
  }

  /** The step of `ReplaceKeepsPlaceholder` past a first character that starts no needle. */
  lemma {:induction false} KeepPastFirst(text: string, c: string, value: string, d: string, i: nat)
    requires BraceFree(c) && BraceFree(d) && c != d
    requires OccursAt(text, Placeholder(d), i) && i >= 1 && |text| >= |Placeholder(c)|
    requires text[..|Placeholder(c)|] != Placeholder(c)
    ensures Occurs(Replace(text, Placeholder(c), value), Placeholder(d))
    decreases |text|, 0
  {
    var p, q := Placeholder(c), Placeholder(d);
    var after := text[1..];
    assert after[i - 1..i - 1 + |q|] == text[i..i + |q|];
    assert OccursAt(after, q, i - 1);
    ReplaceKeepsPlaceholder(after, c, value, d);
    var tail := Replace(after, p, value);
    var j :| 0 <= j <= |tail| && OccursAt(tail, q, j);
    var r := [text[0]] + tail;
    assert Replace(text, p, value) == r;
    assert r[j + 1..j + 1 + |q|] == tail[j..j + |q|];
    assert OccursAt(r, q, j + 1);
  }

  /** A text that starts with `{{d}}` still starts with it after the needle `{{c}}` is replaced. */
  lemma KeepAtFront(text: string, c: string, value: string, d: string)
    requires BraceFree(c) && BraceFree(d) && c != d
    requires OccursAt(text, Placeholder(d), 0)
    ensures Occurs(Replace(text, Placeholder(c), value), Placeholder(d))
  {
    var p, q := Placeholder(c), Placeholder(d);
    var lead, rest := text[..|q|], text[|q|..];
    assert lead + rest == text;
    forall k | 0 <= k < |lead|
      ensures !OccursAt(lead + rest, p, k)
    {
      PlaceholdersApart(text, c, d, k, 0);
    }
    ReplaceKeepsPrefix(lead, rest, p, value);
    var r := Replace(text, p, value);
    assert r[..|q|] == lead == q;
    assert OccursAt(r, q, 0);
  }

  /**
   A placeholder naming no column survives rendering wherever it stands in
   the text, when the columns are brace-free.
   */
  lemma {:induction false} UnknownPlaceholderKept(text: string, d: string, columns: seq<string>, row: Row)
    requires BraceFree(d) && d !in columns
    requires forall c :: c in columns ==> BraceFree(c)
    ensures Occurs(text, Placeholder(d)) ==> Occurs(Render(text, columns, row), Placeholder(d))
    decreases |columns|
  {
    if columns != [] {
      assert columns[0] in columns;
      ReplaceKeepsPlaceholder(text, columns[0], Cell(row, columns[0]), d);
      forall c | c in columns[1..]
        ensures BraceFree(c)
      {
        assert c in columns;
      }
      UnknownPlaceholderKept(Replace(text, Placeholder(columns[0]), Cell(row, columns[0])), d, columns[1..], row);
    }
  }

  /**
   The placeholder of a column in the table renders as that row's cell, when
   the columns are brace-free and the cell holds no `{{` to be rescanned.
   */
  lemma {:induction false} PlaceholderFilled(c: string, columns: seq<string>, row: Row)
    requires c in columns
    requires forall e :: e in columns ==> BraceFree(e)
    requires !Occurs(Cell(row, c), "{{")
    ensures Render(Placeholder(c), columns, row) == Cell(row, c)
    decreases |columns|
  {
    assert columns[0] in columns;
    if columns[0] == c {
      ReplaceWhole(Placeholder(c), Cell(row, c));
      RenderPlainText(Cell(row, c), columns[1..], row);
    } else {
      PlaceholderDistinct(columns[0], c);
      ReplaceAbsent(Placeholder(c), Placeholder(columns[0]), Cell(row, columns[0]));
      forall e | e in columns[1..]
        ensures BraceFree(e)
      {
        assert e in columns;
      }
      PlaceholderFilled(c, columns[1..], row);
    }
  }

  /** "Hi {{company_name}}" for the row {email: a@x.com, company_name: Acme} renders as "Hi Acme". */
  lemma RenderGreeting()
    ensures Render("Hi {{company_name}}", ["email", "company_name"],
                   map["email" := "a@x.com", "company_name" := "Acme"]) == "Hi Acme"
  {
    GreetingColumns("Hi {{company_name}}");
    GreetingReplacements();
  }

  /** With columns [email, company_name], rendering is two replacements in that order. */
  lemma GreetingColumns(text: string)
    ensures Render(text, ["email", "company_name"], map["email" := "a@x.com", "company_name" := "Acme"]) ==
            Replace(Replace(text, Placeholder("email"), "a@x.com"), Placeholder("company_name"), "Acme")
  {
  }

  /** The two replacements of the greeting, one column at a time. */
  lemma GreetingReplacements()
    ensures Replace(Replace("Hi {{company_name}}", Placeholder("email"), "a@x.com"),
                    Placeholder("company_name"), "Acme") == "Hi Acme"
  {
    GreetingSplit();
    GreetingEmail();
    GreetingCompany();
  }

  lemma GreetingSplit()
    ensures "Hi {{company_name}}" == "Hi " + Placeholder("company_name")
  {
  }

  /** The greeting holds no `{{email}}`, so the first replacement keeps it. */
  lemma GreetingEmail()
    ensures Replace("Hi " + Placeholder("company_name"), Placeholder("email"), "a@x.com")
            == "Hi " + Placeholder("company_name")
  {
    ReplaceSkip("Hi ", Placeholder("company_name"), Placeholder("email"), "a@x.com");
    PlaceholderDistinct("email", "company_name");
    ReplaceAbsent(Placeholder("company_name"), Placeholder("email"), "a@x.com");
  }

  /** The second replacement fills the company name in. */
  lemma GreetingCompany()
    ensures Replace("Hi " + Placeholder("company_name"), Placeholder("company_name"), "Acme") == "Hi Acme"
  {
    var tail := Placeholder("company_name");
    ReplaceSkip("Hi ", tail, tail, "Acme");
    assert Replace(tail, tail, "Acme") == "Acme";
  }
}
