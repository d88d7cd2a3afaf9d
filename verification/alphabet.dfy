/** The fixed Russian alphabet of the non-word generator (non_word_generator.py):
    vowel and consonant classes, the letter-case maps the generator relies on,
    and the two cluster tables of the plausibility rules. */
module Alphabet {

  /** Lower-case vowels, in the order the source lists them. */
  const Vowels: string := "аеёиоуыэюя"

  /** Lower-case consonants; `й` counts as a consonant, while the soft and hard
      signs `ь`, `ъ` belong to neither class. */
  const Consonants: string := "бвгджзйклмнпрстфхцчшщ"

  predicate IsVowel(c: char) {
    || c == 'а' || c == 'е' || c == 'ё' || c == 'и' || c == 'о' || c == 'у' || c == 'ы'
    || c == 'э' || c == 'ю' || c == 'я'
  }

  predicate IsConsonant(c: char) {
    || c == 'б' || c == 'в' || c == 'г' || c == 'д' || c == 'ж' || c == 'з' || c == 'й'
    || c == 'к' || c == 'л' || c == 'м' || c == 'н' || c == 'п' || c == 'р' || c == 'с'
    || c == 'т' || c == 'ф' || c == 'х' || c == 'ц' || c == 'ч' || c == 'ш' || c == 'щ'
  }

  /** The class predicates hold exactly of the letters the two strings list. */
  lemma ClassesListed(c: char)
    ensures IsVowel(c) <==> c in Vowels
    ensures IsConsonant(c) <==> c in Consonants
  {
  }

  /** The class of a (lower-case) character. */
  datatype LetterClass = Vowel | Consonant | Other

  function ClassOf(c: char): (k: LetterClass)
    ensures k == Vowel <==> IsVowel(c)
    ensures k == Consonant <==> IsConsonant(c)
  {
    if IsVowel(c) then Vowel else if IsConsonant(c) then Consonant else Other
  }

  /** The vowel and consonant classes are disjoint. */
  lemma ClassesDisjoint(c: char)
    ensures !(IsVowel(c) && IsConsonant(c))
  {
  }

  /** `str.lower` on one character, for the Cyrillic block U+0400..U+042F and
      basic Latin; every other character is its own lower case. */
  function Lower(c: char): char
  {
    if 'А' <= c <= 'Я' then (c as int + 32) as char
    else if '\U{400}' <= c <= '\U{40F}' then (c as int + 80) as char
    else if 'A' <= c <= 'Z' then (c as int + 32) as char
    else c
  }

  /** `str.upper` on one character, the inverse of `Lower` on the same blocks. */
  function Upper(c: char): char
  {
    if 'а' <= c <= 'я' then (c as int - 32) as char
    else if '\U{450}' <= c <= '\U{45F}' then (c as int - 80) as char
    else if 'a' <= c <= 'z' then (c as int - 32) as char
    else c
  }

  /** `str.isupper` on one character: it has a different lower case. */
  predicate IsUpper(c: char) {
    Lower(c) != c
  }

  /** `str.lower` on a word. */
  function LowerStr(s: string): (r: string)
    ensures |r| == |s|
    ensures forall i :: 0 <= i < |s| ==> r[i] == Lower(s[i])
  {
    if |s| == 0 then "" else [Lower(s[0])] + LowerStr(s[1..])
  }

  /** Every letter of the alphabet is lower case, and upper-casing it then
      lower-casing the result gives the letter back, so the case restored by
      the replacement mutator never changes the letter's class. */
  lemma LetterCaseRoundTrip(c: char)
    requires IsVowel(c) || IsConsonant(c)
    ensures Lower(c) == c
    ensures IsUpper(Upper(c)) && Lower(Upper(c)) == c
  {
  }

  /** Letter sequences that may never occur in a plausible word. */
  const ForbiddenClusters: seq<string> := [
    "йь", "йъ", "ьй", "ъй", "ъь", "ьъ",
    "ыы", "эы", "яы", "юы", "иы",
    "цщ", "щц", "чч", "шш", "жж", "щщ",
    "бгд", "птк", "жзд", "шст",
    "аь", "оь", "уь", "эь",
    "аъ", "оъ", "уъ", "эъ",
    "гт",
    "бьн",
    "ийе",
    "тт",
    "сй", "зй"
  ]

  /** The two-consonant beginnings a plausible word may start with (a
      predicate rather than a set constant, so the eighty-string literal only
      enters a proof that asks about a beginning). */
  predicate AllowedInitialCluster(c: string) {
    c in {
    "бл", "бр", "вз", "вл", "вн", "вр", "вс", "вш", "гл", "гн", "гр",
    "дв", "др", "жг", "жд", "жм", "жн", "зв", "зд", "зл", "зм", "зн",
    "кл", "кн", "кр", "кс", "кт", "мг", "мл", "мн", "мр", "мч", "мш",
    "нр", "нз", "пл", "пр", "пс", "пт", "рж", "рз", "рт", "св", "сг",
    "зд", "зг", "ск", "сл", "см", "сн", "сп", "ст", "сф", "сх", "сц",
    "тв", "тк", "тл", "тм", "тн", "тр", "тщ", "хв", "хл", "хм", "хр",
    "цв", "цм", "цн", "чв", "чк", "чл", "чм", "шв", "шк", "шл", "шм",
    "шн", "шп", "шт", "щн"
    }
  }
}
