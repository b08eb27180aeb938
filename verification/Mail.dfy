/** A reconstructed mail and the monitor's verdict on it: `monitor_mail` up to the routing. */
module Mail {
  import opened Bytes
  import opened Wrappers

  /** `mail_t`; id tells apart mails that happen to have the same text. */
  datatype Mail = Mail(
    id: nat,
    from: Text, to: Text, subject: Text, content: Option<Text>, attachName: Text, attachContent: Option<Text>)

  /** The compiled keyword lists, one per field, and the spam filter. */
  datatype Filters = Filters(match_: (int, Text) -> Option<Text>, spam: Text -> bool)

  const KILL := 0
  const MONITOR := 1
  const SPAM := 2
  const MONITOR_SPAM := 3
  const FIELDS := 6

  /** The field the switch of `MAIL_NEXT` picks; None stands for NULL. */
  function Field(mail: Mail, i: int): Option<Text> {
    match i
    case 0 => Some(mail.from)
    case 1 => Some(mail.to)
    case 2 => Some(mail.subject)
    case 3 => mail.content
    case 4 => Some(mail.attachName)
    case 5 => mail.attachContent
    case _ => None
  }

  /** Field i is there, is not empty, and contains one of its keywords. */
  predicate Hit(f: Filters, mail: Mail, i: int) {
    0 <= i < FIELDS && Field(mail, i).Some? && Field(mail, i).value != [] && f.match_(i, Field(mail, i).value).Some?
  }

  predicate IsSpam(f: Filters, mail: Mail) {
    mail.content.Some? && f.spam(mail.content.value)
  }

  ghost predicate HasHit(f: Filters, mail: Mail) {
    exists i :: Hit(f, mail, i)
  }

  ghost predicate FirstHit(f: Filters, mail: Mail, i: int) {
    Hit(f, mail, i) && forall j :: j < i ==> !Hit(f, mail, j)
  }

  /** The log queue a verdict names; 0, which is nobody's verdict, for mails that are simply released. */
  ghost function Route(f: Filters, mail: Mail): (t: int)
    ensures 0 <= t <= 3
  {
    if HasHit(f, mail) then if IsSpam(f, mail) then MONITOR_SPAM else MONITOR
    else if IsSpam(f, mail) then SPAM else 0
  }

  /** `monitor_mail`: the route, and the keyword found in the first field that has one. */
  method Judge(f: Filters, mail: Mail) returns (route: int, keyword: Option<Text>)
    ensures route == Route(f, mail)
    ensures keyword.Some? <==> HasHit(f, mail)
    ensures keyword.Some? ==> exists i :: FirstHit(f, mail, i) && keyword == f.match_(i, Field(mail, i).value)
  {
    var monitor, spam := false, false;
    keyword := None;
    var text := Some(mail.from);
    var i := 0;
    while i < FIELDS
      invariant 0 <= i <= FIELDS && text == Field(mail, i) && !monitor && keyword == None
      invariant forall j :: j < i ==> !Hit(f, mail, j)
    {
      if text.Some? && text.value != [] {
        keyword := f.match_(i, text.value);
        if keyword.Some? {
          monitor := true;
          assert FirstHit(f, mail, i);
          break;
        }
      }
      text := Field(mail, i + 1);
      i := i + 1;
    }
    if mail.content.Some? {
      if f.spam(mail.content.value) {
        spam := true;
      }
    }
    if monitor && !spam {
      return MONITOR, keyword;
    }
    if !monitor && spam {
      return SPAM, keyword;
    }
    if monitor && spam {
      return MONITOR_SPAM, keyword;
    }
    return 0, keyword;
  }
}
