/**
 * The two-character status classifier: a porcelain status pair (index
 * character, working-tree character) is looked up in constant priority and
 * name tables and turned into a primary action, a label, a description,
 * four flags and the presentation strings of a review document.
 */
module GitStatusParser {
  import opened Wrappers
  import opened JsText

  // ---------------------------------------------------------------------
  // The tables
  // ---------------------------------------------------------------------

  /** One entry of the priority table. */
  datatype Priority = Priority(weight: nat, action: string, icon: string, color: string)

  /** `statusPriorities[c]`: the entry for a known character. */
  function PriorityEntry(c: char): (r: Option<Priority>)
    ensures r.Some? <==> c in StatusChars
  {
    match c
    case 'D' => Some(Priority(10, "deleted", "\U{1F5D1}\U{FE0F}", "red"))
    case 'U' => Some(Priority(9, "conflict", "\U{26A0}\U{FE0F}", "yellow"))
    case 'A' => Some(Priority(8, "added", "\U{2728}", "green"))
    case 'R' => Some(Priority(7, "renamed", "\U{1F504}", "blue"))
    case 'C' => Some(Priority(6, "copied", "\U{1F4CB}", "green"))
    case 'M' => Some(Priority(5, "modified", "\U{1F4DD}", "orange"))
    case '?' => Some(Priority(3, "untracked", "\U{2753}", "gray"))
    case ' ' => Some(Priority(1, "unchanged", "", "gray"))
    case _ => None
  }

  /** `statusPriorities[c] || statusPriorities[' ']`: an unknown character weighs as a blank. */
  function Lookup(c: char): (p: Priority)
    ensures PriorityEntry(c).Some? ==> p == PriorityEntry(c).value
    ensures PriorityEntry(c).None? ==> p == PriorityEntry(' ').value
  {
    match PriorityEntry(c)
    case Some(p) => p
    case None => PriorityEntry(' ').value
  }

  /** `actionNames[c]`: the human-readable name of a known character (empty for a blank). */
  function ActionName(c: char): (r: Option<string>)
    ensures r.Some? <==> c in StatusChars
    ensures r == Some("") <==> c == ' '
  {
    match c
    case 'M' => Some("Modified")
    case 'A' => Some("Added")
    case 'D' => Some("Deleted")
    case 'R' => Some("Renamed")
    case 'C' => Some("Copied")
    case 'U' => Some("Conflict")
    case '?' => Some("Untracked")
    case ' ' => Some("")
    case _ => None
  }

  /** `actionNames[c]` is truthy: known, with a non-empty name. */
  predicate Named(c: char)
  {
    ActionName(c).Some? && ActionName(c).value != ""
  }

  /** `${actionNames[c]}`: the name, or `undefined` for an unknown character. */
  function NameText(c: char): string
  {
    match ActionName(c)
    case Some(n) => Interpolate(Str(n))
    case None => Interpolate(Undefined)
  }

  /** The valid characters, in the order the enumeration uses. */
  const StatusChars: seq<char> := ['M', 'A', 'D', 'R', 'C', 'U', '?', ' ']

  /** Different table entries have different weights, so a weight names its entry. */
  lemma WeightDeterminesEntry(c: char, d: char)
    requires Lookup(c).weight == Lookup(d).weight
    ensures Lookup(c) == Lookup(d)
  {
  }

  // ---------------------------------------------------------------------
  // determinePrimaryAction
  // ---------------------------------------------------------------------

  /** `determinePrimaryAction`: the heavier entry, the index's on a tie. */
  function PrimaryAction(indexStatus: char, workingStatus: char): (p: Priority)
    ensures p == Lookup(indexStatus) || p == Lookup(workingStatus)
    ensures p.weight >= Lookup(indexStatus).weight && p.weight >= Lookup(workingStatus).weight
    ensures Lookup(indexStatus).weight == Lookup(workingStatus).weight ==> p == Lookup(indexStatus)
  {
    var i, w := Lookup(indexStatus), Lookup(workingStatus);
    if i.weight >= w.weight then i else w
  }

  /** The order of the two characters does not matter to the primary action. */
  lemma PrimaryActionSymmetric(i: char, w: char)
    ensures PrimaryAction(i, w) == PrimaryAction(w, i)
  {
    if Lookup(i).weight == Lookup(w).weight {
      WeightDeterminesEntry(i, w);
    }
  }

  /** The primary action is a deletion exactly when either character is `D`. */
  lemma PrimaryDeletedIff(i: char, w: char)
    ensures PrimaryAction(i, w).action == "deleted" <==> (i == 'D' || w == 'D')
  {
    var p := PrimaryAction(i, w);
    if p.action == "deleted" {
      assert p == Lookup(i) || p == Lookup(w);
      assert p.weight == 10;
    }
  }

  /** Without a `D`, the primary action is a conflict exactly when either character is `U`. */
  lemma PrimaryConflictIff(i: char, w: char)
    requires i != 'D' && w != 'D'
    ensures PrimaryAction(i, w).action == "conflict" <==> (i == 'U' || w == 'U')
  {
    var p := PrimaryAction(i, w);
    if p.action == "conflict" {
      assert p.weight == 9;
    }
  }

  // ---------------------------------------------------------------------
  // Normalisation and parse
  // ---------------------------------------------------------------------

  /** `(code + '  ').slice(0, 2)`. */
  function Normalize(code: string): (r: string)
    ensures |r| == 2
    ensures |code| >= 2 ==> r == code[..2]
    ensures |code| == 1 ==> r == [code[0], ' ']
    ensures |code| == 0 ==> r == "  "
  {
    (code + "  ")[..2]
  }

  /** `generateLabel`: the stages it pushes before joining them. */
  function LabelStages(indexStatus: char, workingStatus: char): seq<string>
  {
    var first := if indexStatus != ' ' && Named(indexStatus) then [ActionName(indexStatus).value] else [];
    var second :=
      if workingStatus != ' ' && workingStatus != indexStatus && Named(workingStatus) then
        (if |first| > 0 then ["\U{2192}", ActionName(workingStatus).value] else [ActionName(workingStatus).value])
      else [];
    first + second
  }

  /** `generateLabel`: never empty, since every stage it starts with is a non-empty name. */
  function Label(indexStatus: char, workingStatus: char): (r: string)
    ensures r != ""
  {
    var stages := LabelStages(indexStatus, workingStatus);
    if |stages| > 0 then
      JoinStartsWithHead(stages, "");
      Join(stages, "")
    else "Modified"
  }

  /** The label in closed form: both names joined by an arrow when both
      characters are named, non-blank and different; one name when only one
      qualifies; `Modified` when neither does. */
  lemma LabelCases(i: char, w: char)
    ensures var hasIndex := i != ' ' && Named(i);
            var hasWorking := w != ' ' && w != i && Named(w);
            && (hasIndex && hasWorking ==> Label(i, w) == ActionName(i).value + "\U{2192}" + ActionName(w).value)
            && (hasIndex && !hasWorking ==> Label(i, w) == ActionName(i).value)
            && (!hasIndex && hasWorking ==> Label(i, w) == ActionName(w).value)
            && (!hasIndex && !hasWorking ==> Label(i, w) == "Modified")
  {
    var hasIndex := i != ' ' && Named(i);
    var hasWorking := w != ' ' && w != i && Named(w);
    var stages := LabelStages(i, w);
    if hasIndex && hasWorking {
      assert stages == [ActionName(i).value, "\U{2192}", ActionName(w).value];
      JoinThree(ActionName(i).value, "\U{2192}", ActionName(w).value);
    } else if hasIndex {
      assert stages == [ActionName(i).value];
    } else if hasWorking {
      assert stages == [ActionName(w).value];
    } else {
      assert stages == [];
    }
  }

  lemma JoinThree(a: string, b: string, c: string)
    ensures Join([a, b, c], "") == a + b + c
  {
    assert [a, b, c][1..] == [b, c];
    assert [b, c][1..] == [c];
    assert a + "" == a && b + "" == b;
    assert Join([b, c], "") == b + c;
    assert a + (b + c) == a + b + c;
  }

  /** `generateDescription`: the parts it pushes before joining them. */
  function DescriptionParts(indexStatus: char, workingStatus: char): seq<string>
  {
    (if indexStatus != ' ' then ["Staged: " + NameText(indexStatus)] else [])
    + (if workingStatus != ' ' then ["Working: " + NameText(workingStatus)] else [])
  }

  /** `generateDescription`: the parts joined by `, `, or `No changes` when that is empty. */
  function Description(indexStatus: char, workingStatus: char): (r: string)
    ensures indexStatus != ' ' ==> StartsWith(r, "Staged: ")
    ensures indexStatus == ' ' && workingStatus != ' ' ==> StartsWith(r, "Working: ")
    ensures r == "No changes" <==> indexStatus == ' ' && workingStatus == ' '
  {
    var parts := DescriptionParts(indexStatus, workingStatus);
    var joined := Join(parts, ", ");
    if parts != [] then
      JoinStartsWithHead(parts, ", ");
      assert joined[0] == parts[0][0];
      if joined != "" then joined else "No changes"
    else
      if joined != "" then joined else "No changes"
  }

  /** The description in closed form. */
  lemma DescriptionCases(i: char, w: char)
    ensures i != ' ' && w != ' ' ==> Description(i, w) == "Staged: " + NameText(i) + ", " + "Working: " + NameText(w)
    ensures i != ' ' && w == ' ' ==> Description(i, w) == "Staged: " + NameText(i)
    ensures i == ' ' && w != ' ' ==> Description(i, w) == "Working: " + NameText(w)
    ensures i == ' ' && w == ' ' ==> Description(i, w) == "No changes"
  {
    var staged, working := "Staged: " + NameText(i), "Working: " + NameText(w);
    var parts := DescriptionParts(i, w);
    if i != ' ' && w != ' ' {
      assert parts == [staged, working];
      JoinTwo(staged, ", ", working);
    } else if i != ' ' {
      assert parts == [staged];
    } else if w != ' ' {
      assert parts == [working];
    } else {
      assert parts == [];
    }
  }

  lemma JoinTwo(a: string, sep: string, b: string)
    ensures Join([a, b], sep) == a + sep + b
  {
    assert [a, b][1..] == [b];
  }

  /** `isDeleted`: the code contains `D`. */
  predicate IsDeleted(statusCode: string): (b: bool)
    ensures b <==> 'D' in statusCode
  {
    IncludesChar(statusCode, 'D');
    Includes(statusCode, "D")
  }

  /** `isAdded`: the first character is `A` or `C` (false for the empty code). */
  predicate IsAdded(statusCode: string): (b: bool)
    ensures b <==> |statusCode| > 0 && Lookup(statusCode[0]).action in {"added", "copied"}
  {
    |statusCode| > 0 && (statusCode[0] == 'A' || statusCode[0] == 'C')
  }

  /** `isModified`: the code contains `M` or `R`. */
  predicate IsModified(statusCode: string): (b: bool)
    ensures b <==> 'M' in statusCode || 'R' in statusCode
  {
    IncludesChar(statusCode, 'M');
    IncludesChar(statusCode, 'R');
    Includes(statusCode, "M") || Includes(statusCode, "R")
  }

  /** `hasConflict`: the code contains `U`. */
  predicate HasConflict(statusCode: string): (b: bool)
    ensures b <==> 'U' in statusCode
  {
    IncludesChar(statusCode, 'U');
    Includes(statusCode, "U")
  }

  /** What `parse` returns. */
  datatype StatusInfo = StatusInfo(
    statusCode: string, indexStatus: char, workingStatus: char,
    primaryAction: string, icon: string, color: string,
    labelText: string, description: string,
    isDeleted: bool, isAdded: bool, isModified: bool, hasConflict: bool,
    priority: nat)

  /** The table entry a parsed code reports. */
  function ReportedEntry(r: StatusInfo): Priority
  {
    Priority(r.priority, r.primaryAction, r.icon, r.color)
  }

  /** `parse`. */
  function Parse(statusCode: string): (r: StatusInfo)
    ensures |r.statusCode| == 2 && r.indexStatus == r.statusCode[0] && r.workingStatus == r.statusCode[1]
    ensures ReportedEntry(r) == Lookup(r.indexStatus) || ReportedEntry(r) == Lookup(r.workingStatus)
    ensures ReportedEntry(r) == PrimaryAction(r.indexStatus, r.workingStatus)
    ensures r.labelText == Label(r.indexStatus, r.workingStatus)
    ensures r.description == Description(r.indexStatus, r.workingStatus)
    ensures && r.isDeleted == IsDeleted(r.statusCode) && r.isAdded == IsAdded(r.statusCode)
            && r.isModified == IsModified(r.statusCode) && r.hasConflict == HasConflict(r.statusCode)
  {
    var normalized := Normalize(statusCode);
    var i, w := normalized[0], normalized[1];
    var primary := PrimaryAction(i, w);
    StatusInfo(normalized, i, w, primary.action, primary.icon, primary.color,
               Label(i, w), Description(i, w),
               IsDeleted(normalized), IsAdded(normalized), IsModified(normalized), HasConflict(normalized),
               primary.weight)
  }

  /** The reported priority is one of the table's weights. */
  lemma ParsePriorityInTable(statusCode: string)
    ensures Parse(statusCode).priority in {10, 9, 8, 7, 6, 5, 3, 1}
  {
    var r := Parse(statusCode);
    assert ReportedEntry(r).weight == r.priority;
    LookupWeight(r.indexStatus);
    LookupWeight(r.workingStatus);
  }

  lemma LookupWeight(c: char)
    ensures Lookup(c).weight in {10, 9, 8, 7, 6, 5, 3, 1}
  {
  }

  /** A valid code is its own normal form. */
  lemma NormalizeValid(statusCode: string)
    requires |statusCode| == 2
    ensures Normalize(statusCode) == statusCode
  {
  }

  /** `isDeleted` agrees with the primary action: a code is reported deleted
      exactly when its primary action is the deletion. */
  lemma DeletedIffPrimaryDeleted(statusCode: string)
    ensures Parse(statusCode).isDeleted <==> Parse(statusCode).primaryAction == "deleted"
  {
    var n := Normalize(statusCode);
    assert n == [n[0], n[1]];
    PrimaryDeletedIff(n[0], n[1]);
  }

  /** A code with a conflict and no deletion is reported as a conflict. */
  lemma ConflictIsPrimary(statusCode: string)
    ensures var r := Parse(statusCode);
            (r.hasConflict && !r.isDeleted) <==> r.primaryAction == "conflict"
  {
    var n := Normalize(statusCode);
    assert n == [n[0], n[1]];
    PrimaryDeletedIff(n[0], n[1]);
    if n[0] != 'D' && n[1] != 'D' {
      PrimaryConflictIff(n[0], n[1]);
    }
  }

  /** A two-character code is parsed character by character. */
  lemma ParsePair(i: char, w: char)
    ensures var r := Parse([i, w]);
            && r.indexStatus == i && r.workingStatus == w
            && r.primaryAction == PrimaryAction(i, w).action && r.priority == PrimaryAction(i, w).weight
            && r.labelText == Label(i, w) && r.description == Description(i, w)
  {
    NormalizeValid([i, w]);
  }

  /** `AD` is a deletion labelled `Added→Deleted`. */
  lemma ParseAddedThenDeleted()
    ensures Parse("AD").primaryAction == "deleted" && Parse("AD").labelText == "Added\U{2192}Deleted"
  {
    ParsePair('A', 'D');
    LabelCases('A', 'D');
  }

  /** `UU` is a conflict labelled `Conflict`: the repeated character is named once. */
  lemma ParseBothConflicted()
    ensures Parse("UU").primaryAction == "conflict" && Parse("UU").labelText == "Conflict"
  {
    ParsePair('U', 'U');
    LabelCases('U', 'U');
  }

  /** `??` is untracked and labelled `Untracked`. */
  lemma ParseUntracked()
    ensures Parse("??").primaryAction == "untracked" && Parse("??").labelText == "Untracked"
  {
    ParsePair('?', '?');
    LabelCases('?', '?');
  }

  /** The blank pair is unchanged, with the default label and no changes. */
  lemma ParseBlank()
    ensures Parse("  ").primaryAction == "unchanged" && Parse("  ").labelText == "Modified"
    ensures Parse("  ").description == "No changes"
  {
    ParsePair(' ', ' ');
    LabelCases(' ', ' ');
    DescriptionCases(' ', ' ');
  }

  /** Short codes are padded with blanks: `''` reads as `'  '` and `'M'` as `'M '`,
      and a one-sided modification is labelled `Modified` either way round. */
  lemma ShortCodeExamples()
    ensures Parse("").statusCode == "  " && Parse("M").statusCode == "M "
    ensures Parse("M ").labelText == "Modified" && Parse(" M").labelText == "Modified"
  {
    ParsePair('M', ' ');
    LabelCases('M', ' ');
    ParsePair(' ', 'M');
    LabelCases(' ', 'M');
  }

  /** An unknown character is described as `undefined`. */
  lemma UnknownCharDescribedUndefined(c: char)
    requires c !in StatusChars
    ensures Description(c, ' ') == "Staged: undefined"
  {
    DescriptionCases(c, ' ');
  }

  // ---------------------------------------------------------------------
  // Presentation
  // ---------------------------------------------------------------------

  /** `getBadgeClass`: deleted, then conflict, then added, else modified. */
  function BadgeClass(statusCode: string): (r: string)
    ensures r == "deleted" || r == "conflict" || r == "added" || r == "modified"
  {
    var parsed := Parse(statusCode);
    if parsed.isDeleted then "deleted"
    else if parsed.hasConflict then "conflict"
    else if parsed.isAdded then "added"
    else "modified"
  }

  /** The badge in terms of the normalised code's characters. */
  lemma BadgePrecedence(statusCode: string)
    ensures var n := Normalize(statusCode);
            && (BadgeClass(statusCode) == "deleted" <==> 'D' in n)
            && (BadgeClass(statusCode) == "conflict" <==> 'D' !in n && 'U' in n)
            && (BadgeClass(statusCode) == "added" <==> 'D' !in n && 'U' !in n && (n[0] == 'A' || n[0] == 'C'))
            && (BadgeClass(statusCode) == "modified" <==> 'D' !in n && 'U' !in n && n[0] != 'A' && n[0] != 'C')
  {
  }

  /** The section kinds of the review document, in precedence order. */
  datatype Section = DeletedSection | AddedSection | ConflictSection | RenamedSection | CopiedSection | PlainSection

  /** The shared precedence of `getMarkdownHeader` and `getStatusMessage`:
      deleted, added, conflict (on the normalised code), then `R`, then `C`
      anywhere in the raw code. */
  function SectionOf(statusCode: string): Section
  {
    var n := Normalize(statusCode);
    if 'D' in n then DeletedSection
    else if n[0] == 'A' || n[0] == 'C' then AddedSection
    else if 'U' in n then ConflictSection
    else if 'R' in statusCode then RenamedSection
    else if 'C' in statusCode then CopiedSection
    else PlainSection
  }

  /** A section header line: `### <icon> `<filename>`` followed by a tag. */
  function HeaderLine(icon: string, f: string, tag: string): (h: string)
    ensures StartsWith(h, "### ")
    ensures |h| >= |tag| && h[|h| - |tag|..] == tag
  {
    var x := "### " + icon + " `" + f + "`";
    assert (x + tag)[..4] == "### ";
    x + tag
  }

  const DeletedTag := " **[DELETED]**"
  const AddedTag := " **[ADDED]**"
  const ConflictTag := " **[CONFLICT]**"
  const RenamedTag := " **[RENAMED]**"
  const CopiedTag := " **[COPIED]**"

  const DeletedMessage := "**Status:** \U{1F6A8} **DELETED FILE** - This file has been completely removed"
  const AddedMessage := "**Status:** \U{2705} **NEW FILE** - This file has been newly created"
  const ConflictMessage := "**Status:** \U{26A0}\U{FE0F} **CONFLICT** - This file has merge conflicts that need resolution"
  const RenamedMessage := "**Status:** \U{1F504} **RENAMED** - This file has been renamed or moved"
  const CopiedMessage := "**Status:** \U{1F4CB} **COPIED** - This file has been copied from another file"

  /** `getMarkdownHeader`: it follows the section precedence, giving the
      section's icon, the filename in backticks and the section's tag. */
  function MarkdownHeader(statusCode: string, filename: JsValue): (r: string)
    ensures var s := SectionOf(statusCode);
            r == HeaderLine(SectionIcon(s), Interpolate(filename), SectionTag(s))
  {
    ConditionsAsSection(statusCode);
    var parsed := Parse(statusCode);
    var f := Interpolate(filename);
    if parsed.isDeleted then HeaderLine("\U{1F5D1}\U{FE0F}", f, DeletedTag)
    else if parsed.isAdded then HeaderLine("\U{2728}", f, AddedTag)
    else if parsed.hasConflict then HeaderLine("\U{26A0}\U{FE0F}", f, ConflictTag)
    else if Includes(statusCode, "R") then HeaderLine("\U{1F504}", f, RenamedTag)
    else if Includes(statusCode, "C") then HeaderLine("\U{1F4CB}", f, CopiedTag)
    else HeaderLine("\U{1F4C4}", f, "")
  }

  /** `getStatusMessage`; `None` is `null`. It follows the same section
      precedence as the header. */
  function StatusMessage(statusCode: string): (r: Option<string>)
    ensures r == SectionMessage(SectionOf(statusCode))
  {
    ConditionsAsSection(statusCode);
    var parsed := Parse(statusCode);
    if parsed.isDeleted then Some(DeletedMessage)
    else if parsed.isAdded then Some(AddedMessage)
    else if parsed.hasConflict then Some(ConflictMessage)
    else if Includes(statusCode, "R") then Some(RenamedMessage)
    else if Includes(statusCode, "C") then Some(CopiedMessage)
    else None
  }

  /** The header tag each section carries (none for the plain section). */
  function SectionTag(s: Section): string
  {
    match s
    case DeletedSection => DeletedTag
    case AddedSection => AddedTag
    case ConflictSection => ConflictTag
    case RenamedSection => RenamedTag
    case CopiedSection => CopiedTag
    case PlainSection => ""
  }

  /** The header icon of each section. */
  function SectionIcon(s: Section): string
  {
    match s
    case DeletedSection => "\U{1F5D1}\U{FE0F}"
    case AddedSection => "\U{2728}"
    case ConflictSection => "\U{26A0}\U{FE0F}"
    case RenamedSection => "\U{1F504}"
    case CopiedSection => "\U{1F4CB}"
    case PlainSection => "\U{1F4C4}"
  }

  /** The status message of each section; the plain section has none. */
  function SectionMessage(s: Section): Option<string>
  {
    match s
    case DeletedSection => Some(DeletedMessage)
    case AddedSection => Some(AddedMessage)
    case ConflictSection => Some(ConflictMessage)
    case RenamedSection => Some(RenamedMessage)
    case CopiedSection => Some(CopiedMessage)
    case PlainSection => None
  }

  /** The header starts with `### ` and ends with the tag of the code's section. */
  lemma HeaderCarriesSectionTag(statusCode: string, filename: JsValue)
    ensures var h := MarkdownHeader(statusCode, filename);
            var t := SectionTag(SectionOf(statusCode));
            StartsWith(h, "### ") && |h| >= |t| && h[|h| - |t|..] == t
  {
  }

  /** There is a status message exactly when the section is not the plain one. */
  lemma MessageIffNotPlain(statusCode: string)
    ensures StatusMessage(statusCode).None? <==> SectionOf(statusCode) == PlainSection
  {
    var s := SectionOf(statusCode);
    assert StatusMessage(statusCode) == SectionMessage(s);
  }

  /** The plain section's header is the untagged one. */
  lemma PlainHeaderUntagged(statusCode: string, filename: JsValue)
    requires SectionOf(statusCode) == PlainSection
    ensures MarkdownHeader(statusCode, filename) == "### " + "\U{1F4C4}" + " `" + Interpolate(filename) + "`"
  {
    var x := "### " + "\U{1F4C4}" + " `" + Interpolate(filename) + "`";
    assert MarkdownHeader(statusCode, filename) == HeaderLine("\U{1F4C4}", Interpolate(filename), "");
    assert x + "" == x;
  }

  /** The conditions both functions test, in terms of the section. */
  lemma ConditionsAsSection(statusCode: string)
    ensures var parsed := Parse(statusCode);
            && (parsed.isDeleted <==> SectionOf(statusCode) == DeletedSection)
            && (!parsed.isDeleted ==> (parsed.isAdded <==> SectionOf(statusCode) == AddedSection))
            && (!parsed.isDeleted && !parsed.isAdded ==> (parsed.hasConflict <==> SectionOf(statusCode) == ConflictSection))
            && (!parsed.isDeleted && !parsed.isAdded && !parsed.hasConflict ==>
                  && (Includes(statusCode, "R") <==> SectionOf(statusCode) == RenamedSection)
                  && (!Includes(statusCode, "R") ==> (Includes(statusCode, "C") <==> SectionOf(statusCode) == CopiedSection)))
  {
    IncludesChar(statusCode, 'R');
    IncludesChar(statusCode, 'C');
  }

  /** Among valid codes, the copied section is reached only with `C` in the
      working-tree place and `M`, `?` or a blank in the index place: a `C`
      in the index place makes the code count as added. */
  lemma CopiedSectionIff(statusCode: string)
    requires IsValidStatus(Str(statusCode))
    ensures SectionOf(statusCode) == CopiedSection <==>
              statusCode[1] == 'C' && statusCode[0] in {'M', '?', ' '}
  {
    var i, w := statusCode[0], statusCode[1];
    NormalizeValid(statusCode);
    assert statusCode == [i, w];
    assert ('D' in statusCode <==> i == 'D' || w == 'D') && ('U' in statusCode <==> i == 'U' || w == 'U');
    assert ('R' in statusCode <==> i == 'R' || w == 'R') && ('C' in statusCode <==> i == 'C' || w == 'C');
  }

  // ---------------------------------------------------------------------
  // Validity and enumeration
  // ---------------------------------------------------------------------

  /** `isValidStatus`: a string of exactly two valid characters; a missing
      or non-string argument is not valid. */
  predicate IsValidStatus(statusCode: JsValue): (b: bool)
    ensures b <==> && statusCode.Str? && |statusCode.s| == 2
                   && PriorityEntry(statusCode.s[0]).Some? && PriorityEntry(statusCode.s[1]).Some?
  {
    statusCode.Str? && |statusCode.s| == 2
    && statusCode.s[0] in StatusChars && statusCode.s[1] in StatusChars
  }

  /** There is no padding here: the empty code and a one-character code are
      not valid, though `parse` reads them as blank-padded pairs. */
  lemma ShortCodesInvalid(c: char)
    ensures !IsValidStatus(Str("")) && !IsValidStatus(Str([c]))
    ensures IsValidStatus(Str([c, ' '])) <==> c in StatusChars
  {
  }

  /** The enumeration, index character major. */
  function AllPairs(): (r: seq<string>)
    ensures |r| == 64
  {
    seq(64, k requires 0 <= k < 64 => [StatusChars[k / 8], StatusChars[k % 8]])
  }

  /** `getAllPossibleStatuses`. */
  method GetAllPossibleStatuses() returns (combinations: seq<string>)
    ensures combinations == AllPairs()
  {
    var chars := StatusChars;
    combinations := [];
    for a := 0 to |chars|
      invariant combinations == AllPairs()[..8 * a]
    {
      for b := 0 to |chars|
        invariant combinations == AllPairs()[..8 * a + b]
      {
        var index, working := chars[a], chars[b];
        AllPairsSnoc(a, b);
        combinations := combinations + [[index] + [working]];
      }
    }
    assert AllPairs()[..64] == AllPairs();
  }

  /** One more code of the enumeration. */
  lemma AllPairsSnoc(a: nat, b: nat)
    requires a < 8 && b < 8
    ensures AllPairs()[..8 * a + b + 1] == AllPairs()[..8 * a + b] + [[StatusChars[a]] + [StatusChars[b]]]
  {
    var n := 8 * a + b;
    AllPairsAt(a, b);
    assert [StatusChars[a]] + [StatusChars[b]] == [StatusChars[a], StatusChars[b]];
    assert AllPairs()[..n + 1] == AllPairs()[..n] + [AllPairs()[n]];
  }

  lemma AllPairsAt(a: nat, b: nat)
    requires a < 8 && b < 8
    ensures AllPairs()[8 * a + b] == [StatusChars[a], StatusChars[b]]
  {
    assert (8 * a + b) / 8 == a && (8 * a + b) % 8 == b;
  }

  /** Every enumerated code is valid, and every valid code is enumerated. */
  lemma AllPairsAreTheValidCodes(s: string)
    ensures IsValidStatus(Str(s)) <==> s in AllPairs()
  {
    if IsValidStatus(Str(s)) {
      ValidCodeEnumerated(s);
    }
    if s in AllPairs() {
      var k :| 0 <= k < 64 && AllPairs()[k] == s;
      EnumeratedCodeValid(k);
    }
  }

  lemma ValidCodeEnumerated(s: string)
    requires IsValidStatus(Str(s))
    ensures s in AllPairs()
  {
    var i, j := CharIndex(s[0]), CharIndex(s[1]);
    var k := 8 * i + j;
    assert k / 8 == i && k % 8 == j;
    assert AllPairs()[k] == [StatusChars[i], StatusChars[j]];
    assert s == [s[0], s[1]];
  }

  /** The place of a valid character in the enumeration order. */
  function CharIndex(c: char): (k: nat)
    requires c in StatusChars
    ensures k < 8 && StatusChars[k] == c
  {
    match c
    case 'M' => 0
    case 'A' => 1
    case 'D' => 2
    case 'R' => 3
    case 'C' => 4
    case 'U' => 5
    case '?' => 6
    case _ => 7
  }

  lemma EnumeratedCodeValid(k: nat)
    requires k < 64
    ensures IsValidStatus(Str(AllPairs()[k]))
  {
    assert AllPairs()[k] == [StatusChars[k / 8], StatusChars[k % 8]];
  }

  /** The enumeration has no repeats. */
  lemma AllPairsDistinct()
    ensures forall k, l :: 0 <= k < l < 64 ==> AllPairs()[k] != AllPairs()[l]
  {
    forall k, l | 0 <= k < l < 64
      ensures AllPairs()[k] != AllPairs()[l]
    {
      if k / 8 != l / 8 {
        assert AllPairs()[k][0] != AllPairs()[l][0];
      } else {
        assert k % 8 != l % 8;
        assert AllPairs()[k][1] != AllPairs()[l][1];
      }
    }
  }
}
