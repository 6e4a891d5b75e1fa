/**
 * The message categoriser: six keyword-group tests, a length band, a
 * default label when nothing matched, and the labels joined with " | ".
 * The regular expressions themselves are a `Detector` parameter.
 */
module AiService {

  /** The six keyword groups, in the order they are tested. */
  datatype Group = Financial | Confidential | PersonalInformation | Health | Threat | Urgent

  /** Regex.IsMatch of a message against a group's case-insensitive whole-word pattern. */
  type Detector = (Group, string) -> bool

  const Groups: seq<Group> := [Financial, Confidential, PersonalInformation, Health, Threat, Urgent]

  /** A label the categoriser can emit. */
  datatype Category = Matched(group: Group) | LongMessage | MediumLength | General

  function LabelText(c: Category): string {
    match c
    case Matched(Financial) => "Financial"
    case Matched(Confidential) => "Confidential"
    case Matched(PersonalInformation) => "Personal Information (PII)"
    case Matched(Health) => "Health (PHI)"
    case Matched(Threat) => "Potential Threat/Security Alert"
    case Matched(Urgent) => "Urgent Communication"
    case LongMessage => "Long Message - May require careful review"
    case MediumLength => "Medium Length - Review for Detail"
    case General => "General/Informational"
  }

  const Separator: string := " | "

  /** Messages longer than this many characters get the long label. */
  const LongThreshold: nat := 1000
  /** Messages longer than this many characters (and not long) get the medium label. */
  const MediumThreshold: nat := 500

  /** string.Length: the number of UTF-16 code units, two for a character outside the BMP. */
  function Utf16Length(s: string): nat {
    if s == [] then 0 else (if s[0] as int > 0xFFFF then 2 else 1) + Utf16Length(s[1..])
  }

  /** The category of `g` if its test matches, else nothing. */
  function Found(isMatch: Detector, message: string, g: Group): seq<Category> {
    if isMatch(g, message) then [Matched(g)] else []
  }

  /** The categories of the groups in `gs` whose tests match, in the order of `gs`. */
  function MatchedCategories(isMatch: Detector, message: string, gs: seq<Group>): seq<Category> {
    if gs == [] then []
    else Found(isMatch, message, gs[0]) + MatchedCategories(isMatch, message, gs[1..])
  }

  /** The length band's category, if any. */
  function LengthCategories(length: nat): seq<Category> {
    if length > LongThreshold then [LongMessage]
    else if length > MediumThreshold then [MediumLength]
    else []
  }

  /** The category list AnalyzeMessage builds before joining it. */
  function Categories(isMatch: Detector, message: string): seq<Category> {
    var found := MatchedCategories(isMatch, message, Groups) + LengthCategories(Utf16Length(message));
    if found == [] then [General] else found
  }

  /** The label texts of a category list, in order. */
  function Labels(cats: seq<Category>): seq<string> {
    if cats == [] then [] else [LabelText(cats[0])] + Labels(cats[1..])
  }

  /** string.Join: the parts with `separator` between consecutive ones; "" for no parts. */
  function Join(separator: string, parts: seq<string>): string {
    if parts == [] then ""
    else if |parts| == 1 then parts[0]
    else parts[0] + separator + Join(separator, parts[1..])
  }

  /** Testing two lists of groups one after the other finds the categories of each, in order. */
  lemma {:induction false} MatchedCategoriesAppend(isMatch: Detector, message: string, gs: seq<Group>, hs: seq<Group>)
    ensures MatchedCategories(isMatch, message, gs + hs)
      == MatchedCategories(isMatch, message, gs) + MatchedCategories(isMatch, message, hs)
  {
    if gs == [] {
      assert gs + hs == hs;
    } else {
      assert (gs + hs)[0] == gs[0] && (gs + hs)[1..] == gs[1..] + hs;
      MatchedCategoriesAppend(isMatch, message, gs[1..], hs);
    }
  }

  /** The six tests one after the other. */
  lemma MatchedCategoriesOfGroups(isMatch: Detector, message: string)
    ensures MatchedCategories(isMatch, message, Groups)
      == Found(isMatch, message, Financial) + Found(isMatch, message, Confidential)
       + Found(isMatch, message, PersonalInformation) + Found(isMatch, message, Health)
       + Found(isMatch, message, Threat) + Found(isMatch, message, Urgent)
  {
    forall g | true
      ensures MatchedCategories(isMatch, message, [g]) == Found(isMatch, message, g)
    {
      assert [g][1..] == [];
    }
    assert Groups == [Financial] + [Confidential] + [PersonalInformation] + [Health] + [Threat] + [Urgent];
    MatchedCategoriesAppend(isMatch, message, [Financial] + [Confidential] + [PersonalInformation] + [Health] + [Threat], [Urgent]);
    MatchedCategoriesAppend(isMatch, message, [Financial] + [Confidential] + [PersonalInformation] + [Health], [Threat]);
    MatchedCategoriesAppend(isMatch, message, [Financial] + [Confidential] + [PersonalInformation], [Health]);
    MatchedCategoriesAppend(isMatch, message, [Financial] + [Confidential], [PersonalInformation]);
    MatchedCategoriesAppend(isMatch, message, [Financial], [Confidential]);
  }

  /** The fixed position of each category in the output: the six groups, long, medium, default. */
  function Rank(c: Category): nat {
    match c
    case Matched(Financial) => 0
    case Matched(Confidential) => 1
    case Matched(PersonalInformation) => 2
    case Matched(Health) => 3
    case Matched(Threat) => 4
    case Matched(Urgent) => 5
    case LongMessage => 6
    case MediumLength => 7
    case General => 8
  }

  /** Every category comes strictly before the next in the fixed order (so none repeats). */
  predicate Ascending(cats: seq<Category>) {
    forall i, j :: 0 <= i < j < |cats| ==> Rank(cats[i]) < Rank(cats[j])
  }

  /** The categories found among `gs`, if `gs` is in test order, are group categories in the fixed order. */
  lemma {:induction false} MatchedCategoriesAscending(isMatch: Detector, message: string, gs: seq<Group>)
    requires forall i, j :: 0 <= i < j < |gs| ==> Rank(Matched(gs[i])) < Rank(Matched(gs[j]))
    ensures Ascending(MatchedCategories(isMatch, message, gs))
    ensures forall i :: 0 <= i < |MatchedCategories(isMatch, message, gs)| ==>
      && MatchedCategories(isMatch, message, gs)[i].Matched?
      && Rank(Matched(gs[0])) <= Rank(MatchedCategories(isMatch, message, gs)[i])
  {
    if gs != [] {
      MatchedCategoriesAscending(isMatch, message, gs[1..]);
      var rest := MatchedCategories(isMatch, message, gs[1..]);
      assert forall i :: 0 <= i < |rest| ==> Rank(Matched(gs[0])) < Rank(rest[i]) by {
        if |gs| > 1 {
          assert gs[1..][0] == gs[1];
        }
      }
    }
  }

  /** A group's category is found among `gs` exactly when the group is in `gs` and its test matches. */
  lemma {:induction false} MatchedCategoriesContain(isMatch: Detector, message: string, gs: seq<Group>, g: Group)
    ensures Matched(g) in MatchedCategories(isMatch, message, gs) <==> g in gs && isMatch(g, message)
  {
    if gs != [] {
      MatchedCategoriesContain(isMatch, message, gs[1..], g);
      assert gs == [gs[0]] + gs[1..];
    }
  }

  /** The six groups are listed in the fixed order, each exactly once. */
  lemma GroupsInOrder()
    ensures forall i, j :: 0 <= i < j < |Groups| ==> Rank(Matched(Groups[i])) < Rank(Matched(Groups[j]))
    ensures forall g :: g in Groups
  {
    forall g ensures g in Groups {
      match g
      case Financial => assert Groups[0] == g;
      case Confidential => assert Groups[1] == g;
      case PersonalInformation => assert Groups[2] == g;
      case Health => assert Groups[3] == g;
      case Threat => assert Groups[4] == g;
      case Urgent => assert Groups[5] == g;
    }
  }

  /** The category list is in the fixed order, holds 1 to 7 labels, and repeats none. */
  lemma CategoriesOrdered(isMatch: Detector, message: string)
    ensures var cats := Categories(isMatch, message);
      && Ascending(cats)
      && 1 <= |cats| <= 7
      && (forall i, j :: 0 <= i < j < |cats| ==> cats[i] != cats[j])
  {
    GroupsInOrder();
    MatchedCategoriesAscending(isMatch, message, Groups);
    MatchedCategoriesOfGroups(isMatch, message);
    var found := MatchedCategories(isMatch, message, Groups);
    var band := LengthCategories(Utf16Length(message));
    assert |found| <= 6;
    assert Ascending(found + band) by {
      assert forall i :: 0 <= i < |found| ==> Rank(found[i]) < 6;
      assert forall i :: 0 <= i < |band| ==> 6 <= Rank(band[i]);
      assert forall i :: 0 <= i < |found + band| ==>
        (found + band)[i] == if i < |found| then found[i] else band[i - |found|];
    }
  }

  /**
   * Which categories a message gets: a group's exactly when its test
   * matches, the long label exactly above 1000 characters, the medium label
   * exactly in (500, 1000], and the default label exactly when nothing else
   * applies, in which case it is the only label.
   */
  lemma CategoriesLabels(isMatch: Detector, message: string)
    ensures var cats := Categories(isMatch, message);
      var length := Utf16Length(message);
      && (forall g :: Matched(g) in cats <==> isMatch(g, message))
      && (LongMessage in cats <==> length > LongThreshold)
      && (MediumLength in cats <==> MediumThreshold < length <= LongThreshold)
      && (General in cats <==> (forall g :: !isMatch(g, message)) && length <= MediumThreshold)
      && (General in cats <==> cats == [General])
  {
    var found := MatchedCategories(isMatch, message, Groups);
    GroupsInOrder();
    MatchedCategoriesAscending(isMatch, message, Groups);
    forall g ensures Matched(g) in found <==> isMatch(g, message) {
      MatchedCategoriesContain(isMatch, message, Groups, g);
    }
    assert LongMessage !in found && MediumLength !in found && General !in found;
  }

  /** Splits text at each " | ", the inverse of joining labels that contain no '|'. */
  function SplitFields(s: string, field: string): seq<string>
    decreases |s|
  {
    if s == [] then [field]
    else if |s| >= |Separator| && s[..|Separator|] == Separator then [field] + SplitFields(s[|Separator|..], "")
    else SplitFields(s[1..], field + [s[0]])
  }

  /** Reading a part that holds no '|' only extends the current field. */
  lemma {:induction false} SplitFieldsPart(part: string, rest: string, field: string)
    requires '|' !in part
    requires rest == [] || (|rest| >= |Separator| && rest[..|Separator|] == Separator)
    ensures SplitFields(part + rest, field) == SplitFields(rest, field + part)
  {
    if part == [] {
      assert part + rest == rest;
      assert field + part == field;
    } else {
      var s := part + rest;
      assert s[0] == part[0];
      assert s[1..] == part[1..] + rest;
      if |s| >= |Separator| {
        assert s[1] != '|' by {
          if |part| > 1 {
            assert s[1] == part[1];
          } else {
            assert s[1] == rest[0];
          }
        }
      }
      SplitFieldsPart(part[1..], rest, field + [part[0]]);
      assert field + [part[0]] + part[1..] == field + part;
    }
  }

  /** Splitting a join of parts without '|' at " | " gives back the parts. */
  lemma {:induction false} JoinSplit(parts: seq<string>)
    requires parts != []
    requires forall i :: 0 <= i < |parts| ==> '|' !in parts[i]
    ensures SplitFields(Join(Separator, parts), "") == parts
  {
    if |parts| == 1 {
      SplitFieldsPart(parts[0], "", "");
      assert parts[0] + "" == parts[0];
      assert "" + parts[0] == parts[0];
    } else {
      var tail := Join(Separator, parts[1..]);
      JoinSplit(parts[1..]);
      var rest := Separator + tail;
      assert parts[0] + Separator + tail == parts[0] + rest;
      SplitFieldsPart(parts[0], rest, "");
      assert "" + parts[0] == parts[0];
      assert rest[..|Separator|] == Separator;
      assert rest[|Separator|..] == tail;
      assert parts == [parts[0]] + parts[1..];
    }
  }

  /** No group label contains the separator's '|', and none is empty. */
  lemma GroupLabelPlain(g: Group)
    ensures '|' !in LabelText(Matched(g)) && LabelText(Matched(g)) != []
  {
    match g
    case Financial => assert '|' !in "Financial";
    case Confidential => assert '|' !in "Confidential";
    case PersonalInformation => assert '|' !in "Personal Information (PII)";
    case Health => assert '|' !in "Health (PHI)";
    case Threat => ThreatLabelPlain();
    case Urgent => assert '|' !in "Urgent Communication";
  }

  /** The threat label has no separator character. */
  lemma ThreatLabelPlain()
    ensures '|' !in LabelText(Matched(Threat))
  {
    assert '|' !in "Potential Threat/Security Alert";
  }

  /** The long-message label has no separator character. */
  lemma LongLabelPlain()
    ensures '|' !in LabelText(LongMessage)
  {
    assert '|' !in "Long Message - May require careful review";
  }

  /** The medium-length label has no separator character. */
  lemma MediumLabelPlain()
    ensures '|' !in LabelText(MediumLength)
  {
    assert '|' !in "Medium Length - Review for Detail";
  }

  /** No label text contains the separator's '|', and none is empty. */
  lemma LabelTextPlain(c: Category)
    ensures '|' !in LabelText(c) && LabelText(c) != []
  {
    match c
    case Matched(g) => GroupLabelPlain(g);
    case LongMessage => LongLabelPlain();
    case MediumLength => MediumLabelPlain();
    case General => assert '|' !in "General/Informational";
  }

  /** The label texts line up one for one with the categories. */
  lemma {:induction false} LabelsAt(cats: seq<Category>)
    ensures |Labels(cats)| == |cats|
    ensures forall i :: 0 <= i < |cats| ==> Labels(cats)[i] == LabelText(cats[i])
  {
    if cats != [] {
      LabelsAt(cats[1..]);
    }
  }

  /** The label text of one category. */
  lemma LabelsSingle(c: Category)
    ensures Labels([c]) == [LabelText(c)]
  {
    assert [c][1..] == [];
  }

  /** Label texts of two category lists one after the other. */
  lemma {:induction false} LabelsAppend(cats: seq<Category>, more: seq<Category>)
    ensures Labels(cats + more) == Labels(cats) + Labels(more)
  {
    if cats == [] {
      assert cats + more == more;
    } else {
      assert (cats + more)[0] == cats[0] && (cats + more)[1..] == cats[1..] + more;
      LabelsAppend(cats[1..], more);
    }
  }

  /** The label texts of the category list, test by test. */
  lemma LabelsOfCategories(isMatch: Detector, message: string)
    ensures var found := Labels(Found(isMatch, message, Financial)) + Labels(Found(isMatch, message, Confidential))
        + Labels(Found(isMatch, message, PersonalInformation)) + Labels(Found(isMatch, message, Health))
        + Labels(Found(isMatch, message, Threat)) + Labels(Found(isMatch, message, Urgent))
        + Labels(LengthCategories(Utf16Length(message)));
      Labels(Categories(isMatch, message)) == if found == [] then [LabelText(General)] else found
  {
    MatchedCategoriesOfGroups(isMatch, message);
    var f, c, p, h, t, u := Found(isMatch, message, Financial), Found(isMatch, message, Confidential),
      Found(isMatch, message, PersonalInformation), Found(isMatch, message, Health),
      Found(isMatch, message, Threat), Found(isMatch, message, Urgent);
    var band := LengthCategories(Utf16Length(message));
    LabelsAppend(f + c + p + h + t + u, band);
    LabelsAppend(f + c + p + h + t, u);
    LabelsAppend(f + c + p + h, t);
    LabelsAppend(f + c + p, h);
    LabelsAppend(f + c, p);
    LabelsAppend(f, c);
    assert Labels([General]) == [LabelText(General)];
  }

  /**
   * AnalyzeMessage: grow the list group by group, add the length band, add
   * the default label if the list is still empty, and join.
   */
  method AnalyzeMessage(isMatch: Detector, message: string) returns (r: string)
    ensures r == Join(Separator, Labels(Categories(isMatch, message)))
  {
    var categories: seq<string> := [];
    categories := AddIfMatched(categories, isMatch, message, Financial);
    assert categories == Labels(Found(isMatch, message, Financial));
    categories := AddIfMatched(categories, isMatch, message, Confidential);
    categories := AddIfMatched(categories, isMatch, message, PersonalInformation);
    categories := AddIfMatched(categories, isMatch, message, Health);
    categories := AddIfMatched(categories, isMatch, message, Threat);
    categories := AddIfMatched(categories, isMatch, message, Urgent);
    ghost var beforeBand := categories;
    var length := Utf16Length(message);
    if length > LongThreshold {
      categories := categories + [LabelText(LongMessage)];
    } else if length > MediumThreshold {
      categories := categories + [LabelText(MediumLength)];
    }
    LabelsSingle(LongMessage);
    LabelsSingle(MediumLength);
    assert categories == beforeBand + Labels(LengthCategories(length));
    if |categories| == 0 {
      categories := categories + [LabelText(General)];
    }
    LabelsOfCategories(isMatch, message);
    r := Join(Separator, categories);
  }

  /** One keyword test: appends the group's label when the group's test matches the message. */
  method AddIfMatched(categories: seq<string>, isMatch: Detector, message: string, g: Group)
    returns (next: seq<string>)
    ensures next == categories + Labels(Found(isMatch, message, g))
  {
    next := categories;
    if isMatch(g, message) {
      next := next + [LabelText(Matched(g))];
    }
    LabelsSingle(Matched(g));
  }

  /**
   * The output is never empty, reads back as the category labels when split
   * at " | ", and is exactly the default label when no group matches and
   * the message is at most 500 characters long.
   */
  lemma AnalyzeMessageOutput(isMatch: Detector, message: string)
    ensures var r := Join(Separator, Labels(Categories(isMatch, message)));
      && r != []
      && SplitFields(r, "") == Labels(Categories(isMatch, message))
      && ((forall g :: !isMatch(g, message)) && Utf16Length(message) <= MediumThreshold ==>
            r == "General/Informational")
  {
    var labels := Labels(Categories(isMatch, message));
    LabelsAt(Categories(isMatch, message));
    CategoriesOrdered(isMatch, message);
    CategoriesLabels(isMatch, message);
    forall i | 0 <= i < |labels| ensures '|' !in labels[i] && labels[i] != [] {
      LabelTextPlain(Categories(isMatch, message)[i]);
    }
    JoinSplit(labels);
  }
}
