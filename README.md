# E-mail validation of the Item entity

The Item entity of the internship record service carries a static check,
`Item.validEmail(String)`, that decides whether a string is an acceptable
e-mail address. The string must match the pattern
`^[A-Z0-9._-]+@[A-Z0-9_-]+\.[A-Z]+$` as a whole (`Matcher.matches()`). The
pattern is compiled with `Pattern.CASE_INSENSITIVE` and without
`UNICODE_CASE`, so case folding applies to ASCII letters only. The accepted
language is therefore exactly the strings `L @ D . T` where

- L, the local part, is a non-empty run of ASCII letters, digits, `.`, `_` and `-`;
- D, the domain label, is a non-empty run of ASCII letters, digits, `_` and `-`;
- T, the top-level domain, is a non-empty run of ASCII letters.

This is the pattern's own ad hoc grammar, not the addr-spec of section 3.4.1
of RFC 5322. For example, a multi-label domain such as `a@b.c.com` is
rejected.

The project has three modules:

- `Ascii` (ascii.dfy): ASCII letters and digits, and the ASCII-only case
  mapping that Java's regular expressions use.
- `Item` (item.dfy): the pattern's three bracket classes as written, and how
  CASE_INSENSITIVE widens them. `Matches` is the declarative language: some
  index of `@` and some index of `.` split the string into the three parts.
  `ValidEmail` is the executable validator, a deterministic automaton that
  reads the string left to right. `RunFromStart` proves that the automaton's
  state after any prefix says exactly which prefix of the pattern matched, so
  `ValidEmail` accepts exactly the strings `Matches` describes.
- `EmailProperties` (email_properties.dfy): the consequences the validator
  promises. An address is accepted iff it is such a concatenation. It has a
  single `@` and a single `.` after the `@`. The character classes are
  enforced everywhere. ASCII case does not change the verdict. The addresses
  of the unit test `testEmails` get the verdicts that test expects.

## Model

| member | source | states |
|---|---|---|
| `Item.LocalChar` | src/main/java/com/siemens/internship/Item.java:32 | `[A-Z0-9._-]` under ASCII-only CASE_INSENSITIVE matches exactly the ASCII letters of both cases, the digits, `.`, `_` and `-` |
| `Item.DomainChar` | src/main/java/com/siemens/internship/Item.java:32 | `[A-Z0-9_-]` under ASCII-only CASE_INSENSITIVE matches exactly the ASCII letters, the digits, `_` and `-` (no `.`) |
| `Item.TldChar` | src/main/java/com/siemens/internship/Item.java:32 | `[A-Z]` under ASCII-only CASE_INSENSITIVE matches exactly the ASCII letters of both cases |
| `Item.ValidEmail` | src/main/java/com/siemens/internship/Item.java:30-35 | the validator returns true iff the whole string, with nothing before or after, splits as local part, `@`, domain label, `.`, top-level domain, each part non-empty and drawn from its class |
| `Item.RunFromStart` | src/main/java/com/siemens/internship/Item.java:32-34 | after reading any string the scanner is in the start state iff it is empty, in the local part iff it is a local part, after the `@` iff it is a local part plus `@`, in the domain iff it is local part `@` label, after the dot iff it is that plus `.`, and accepting iff the whole pattern matches |
| `EmailProperties.ComposedIsAccepted` | src/main/java/com/siemens/internship/Item.java:31-34 | any local part, domain label and top-level domain joined as `l + "@" + d + "." + t` is accepted |
| `EmailProperties.Decompose` | src/main/java/com/siemens/internship/Item.java:31-34 | every accepted string is `l + "@" + d + "." + t` for some local part, domain label and top-level domain |
| `EmailProperties.CharOfSplit` | src/main/java/com/siemens/internship/Item.java:32 | in a matching split, every character before the `@` is a local-part character, every one between `@` and `.` a domain character, every one after the `.` a letter |
| `EmailProperties.OnlyOneAt` | src/main/java/com/siemens/internship/Item.java:32 | an accepted string contains `@` at exactly one index |
| `EmailProperties.OneDotAfterAt` | src/main/java/com/siemens/internship/Item.java:32 | after the `@` of an accepted string there is exactly one `.`, with at least one character between `@` and `.` and at least one after the `.` |
| `EmailProperties.EmptyLocalPartRejected` | src/main/java/com/siemens/internship/Item.java:32 | a string that starts with `@` is rejected |
| `EmailProperties.ForeignCharRejected` | src/main/java/com/siemens/internship/Item.java:32 | a character that is neither `@` nor a letter, digit, `.`, `_` or `-` rejects the string at any position |
| `EmailProperties.NonLetterInTldRejected` | src/main/java/com/siemens/internship/Item.java:32 | a non-letter anywhere after a `.` that follows an `@` rejects the string |
| `EmailProperties.EmptyDomainLabelRejected` | src/main/java/com/siemens/internship/Item.java:32 | an `@` directly followed by `.` rejects the string |
| `EmailProperties.StepIgnoresCase` | src/main/java/com/siemens/internship/Item.java:32 | two characters that differ only in ASCII case move the scanner to the same state |
| `EmailProperties.RunIgnoresCase` | src/main/java/com/siemens/internship/Item.java:32 | two strings that differ only in ASCII case lead the scanner from any state to the same state |
| `EmailProperties.CaseDoesNotMatter` | src/main/java/com/siemens/internship/Item.java:31-32 | changing the case of any ASCII letters never changes the verdict |
| `EmailProperties.AcceptsTestAtExampleCom` | src/test/java/com/siemens/internship/InternshipApplicationTests.java:144 | `test@example.com` is accepted |
| `EmailProperties.AcceptsDottedLocalPart` | src/test/java/com/siemens/internship/InternshipApplicationTests.java:145 | `user.name@example.com` is accepted |
| `EmailProperties.AcceptsDigitsInLocalPart` | src/test/java/com/siemens/internship/InternshipApplicationTests.java:146 | `plampe01@gmail.com` is accepted |
| `EmailProperties.RejectsEmptyString` | src/test/java/com/siemens/internship/InternshipApplicationTests.java:148 | the empty string is rejected |
| `EmailProperties.RejectsPlainAddress` | src/test/java/com/siemens/internship/InternshipApplicationTests.java:149 | `plainaddress` (no `@`) is rejected |
| `EmailProperties.RejectsMissingDot` | src/test/java/com/siemens/internship/InternshipApplicationTests.java:150 | `missing@domain` (no `.` after the `@`) is rejected |
| `EmailProperties.RejectsMissingLocalPart` | src/test/java/com/siemens/internship/InternshipApplicationTests.java:151 | `@missinglocalpart.com` is rejected |
| `EmailProperties.RejectsEmptyDomainLabel` | src/test/java/com/siemens/internship/InternshipApplicationTests.java:152 | `user@.domain.com` is rejected |
| `EmailProperties.RejectsComma` | src/test/java/com/siemens/internship/InternshipApplicationTests.java:153 | `user@domain,com` is rejected |
| `EmailProperties.RejectsTrailingAt` | src/test/java/com/siemens/internship/InternshipApplicationTests.java:154 | `user@domain.com@` (two `@`) is rejected |
| `EmailProperties.RejectsDoubleDot` | src/test/java/com/siemens/internship/InternshipApplicationTests.java:155 | `user@domain..com` is rejected |

## Left out

- The batch processor `ItemService.processItemsAsync` (src/main/java/com/siemens/internship/ItemService.java:97-133) is left out. It is about concurrency: tasks on a fixed thread pool, a join of all futures, a synchronized list and an atomic counter that outlive the call, and sleeping and interruption. A sequential model would lose what the code is about.
- The commented-out earlier version of the batch processor (ItemService.java:66-96) is left out. It is dead code.
- The pass-throughs `findAll`, `findById`, `save` and `deleteById` (ItemService.java:29-43) are left out. Each delegates to `ItemRepository`, which is not part of this model.
- The fields of `Item` and their Lombok accessors, and the JPA mapping (Item.java:16-27, 37), are left out. They form a plain record that the validator does not read.
- `ValidEmail` takes a `string`, so the `NullPointerException` Java throws for a `null` argument is not modelled.
- Java strings are UTF-16 code units. Dafny characters are Unicode scalar values. No character outside ASCII is in any class of the pattern, so a supplementary character rejects the string either way and the verdict is the same.
- How `java.util.regex` compiles the pattern (once per call) and matches it by backtracking is not modelled. The model gives the accepted language and an automaton for it. A line terminator before the end of the input, which `$` would allow in a `find()`, is rejected by `matches()`. In the model it is rejected too, since it belongs to no class.
