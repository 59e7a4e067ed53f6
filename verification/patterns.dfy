/**
 The two callback-payload patterns, `^(info|help)$` for the start menu and
 `^plugin::hack$` for the hack plugin's help page. The handler library tests
 them with Python's `re.match`, and in Python `$` matches at the end of the
 string or just before a single trailing newline; that is the matching
 modelled here, with no other regular-expression machinery.
 */
module Patterns {
  import opened Telegram

  const InfoToken: string := "info"
  const HelpToken: string := "help"
  const HackHelpPayload: string := "plugin::hack"

  /** `re.match("^" + literal + "$", data)` for a literal without metacharacters. */
  predicate AnchoredMatch(literal: string, data: string)
  {
    data == literal || data == literal + "\n"
  }

  /** Whether a callback handler guarded by `pattern` accepts the payload `data`. */
  function Accepts(pattern: CallbackPattern, data: string): (b: bool)
    ensures pattern == CoreTokens ==> (b <==> data in {"info", "help", "info\n", "help\n"})
    ensures pattern == HackHelpToken ==> (b <==> data in {"plugin::hack", "plugin::hack\n"})
  {
    match pattern
    case CoreTokens =>
      assert InfoToken + "\n" == "info\n" && HelpToken + "\n" == "help\n";
      AnchoredMatch(InfoToken, data) || AnchoredMatch(HelpToken, data)
    case HackHelpToken =>
      assert HackHelpPayload + "\n" == "plugin::hack\n";
      AnchoredMatch(HackHelpPayload, data)
  }

  /** No payload is accepted by both patterns: the hack plugin's help payload
      never passes the start-menu pattern and the start-menu payloads never
      pass the hack plugin's. */
  lemma PatternsDisjoint(data: string)
    ensures !(Accepts(CoreTokens, data) && Accepts(HackHelpToken, data))
  {
  }
}
