/** The application singleton (ApplicationManager): the notification gate, the pointer
    position and drag state shared with the interface, the fullscreen flag, and the
    update check that compares the published version with the running one. */
module Application {
  import opened Text

  import opened Wrappers

  /** The signals the application object emits to the interface. */
  datatype AppSignal =
    | MouseXChanged(x: int)
    | MouseYChanged(y: int)
    | DraggingChanged(dragging: bool)
    | Notification(message: string)

  /** The running version. */
  const Version: string := "0.7.2"

  const UpdateMessage: string := "New version available. Go to www.beatwhale.com to download."

  /** QByteArray::mid(pos, len) for 0 <= pos <= |s|: a negative or overlong length means
      the rest of the string. */
  function Mid(s: string, pos: nat, len: int): (r: string)
    requires pos <= |s|
    ensures 0 <= len <= |s| - pos ==> r == s[pos..pos + len]
    ensures (len < 0 || len > |s| - pos) ==> r == s[pos..]
  {
    if 0 <= len <= |s| - pos then s[pos..pos + len] else s[pos..]
  }

  const Int32Max: int := 0x7fff_ffff
  const Int32Min: int := -0x8000_0000

  /** QString::toInt(): an optional sign and decimal digits whose value fits in 32 bits;
      anything else reads as 0. */
  function ToInt(s: string): (r: int)
    ensures Int32Min <= r <= Int32Max
    ensures IsDigits(s) && |s| > 0 && ParseNat(s) <= Int32Max ==> r == ParseNat(s)
    ensures !IsDigits(s) && (|s| == 0 || (s[0] != '-' && s[0] != '+')) ==> r == 0
  {
    if |s| > 0 && (s[0] == '-' || s[0] == '+') then
      var digits := s[1..];
      if |digits| > 0 && IsDigits(digits) then
        var n: int := ParseNat(digits);
        var v := if s[0] == '-' then -n else n;
        if Int32Min <= v <= Int32Max then v else 0
      else 0
    else if |s| > 0 && IsDigits(s) && ParseNat(s) <= Int32Max then ParseNat(s)
    else 0
  }

  /** The version text in the update page: after the first "version", from just past
      the first '>' up to the first '<' of that rest; None when "version" is absent. */
  function ExtractVersion(reply: string): (r: Option<string>)
    ensures r.None? <==> forall j :: !MatchesAt(reply, "version", j)
  {
    var at := IndexOfSub(reply, "version");
    if at < 0 then None
    else
      Some(Marked(reply[at..]))
  }

  /** From just past the first '>' up to the first '<' (the rest when there is none, or
      when it comes before the '>'). */
  function Marked(rest: string): string
  {
    var start := IndexOf(rest, '>') + 1;
    Mid(rest, start, IndexOf(rest, '<') - start)
  }

  /** The loop over the three components, stopping at the first one that is greater. */
  function SomeComponentGreater(newer: seq<string>, current: seq<string>, i: nat): bool
    requires |newer| == 3 && |current| == 3 && i <= 3
    decreases 3 - i
  {
    if i == 3 then false
    else if ToInt(newer[i]) > ToInt(current[i]) then true
    else SomeComponentGreater(newer, current, i + 1)
  }

  /** The loop finds a greater component iff there is one from i on: the comparison is
      componentwise, not lexicographic. */
  lemma {:induction false} SomeComponentGreaterExists(newer: seq<string>, current: seq<string>, i: nat)
    requires |newer| == 3 && |current| == 3 && i <= 3
    ensures SomeComponentGreater(newer, current, i) <==>
      exists k :: i <= k < 3 && ToInt(newer[k]) > ToInt(current[k])
    decreases 3 - i
  {
    if i < 3 {
      SomeComponentGreaterExists(newer, current, i + 1);
      if ToInt(newer[i]) <= ToInt(current[i]) {
        assert SomeComponentGreater(newer, current, i) == SomeComponentGreater(newer, current, i + 1);
        assert (exists k :: i <= k < 3 && ToInt(newer[k]) > ToInt(current[k])) <==>
               (exists k :: i + 1 <= k < 3 && ToInt(newer[k]) > ToInt(current[k]));
      }
    }
  }

  /** A published version announces an update iff it has three '.'-parts and one of
      them is greater than the running version's part at the same place. */
  predicate Announces(newVersion: string)
  {
    var parts := Split(newVersion, '.');
    VersionParts();
    |parts| == 3 && SomeComponentGreater(parts, Split(Version, '.'), 0)
  }

  /** Whether a reply to the update check raises the update notification. */
  predicate ReplyAnnounces(reply: string)
  {
    var v := ExtractVersion(reply);
    v.Some? && Announces(v.value)
  }

  /** Splitting at the first separator. */
  lemma SplitFirst(s: string, sep: char, i: nat)
    requires i < |s| && s[i] == sep && sep !in s[..i]
    ensures Split(s, sep) == [s[..i]] + Split(s[i + 1..], sep)
  {
    assert IndexOf(s, sep) == i by {
      assert s == s[..i] + [sep] + s[i + 1..];
      IndexOfAfterPrefix(s[..i], sep, s[i + 1..]);
    }
  }

  /** "a.b.c" with single-character parts splits into its three parts. */
  lemma {:induction false} ThreeParts(a: char, b: char, c: char)
    requires a != '.' && b != '.' && c != '.'
    ensures Split([a, '.', b, '.', c], '.') == [[a], [b], [c]]
  {
    var xs: seq<string> := [[a], [b], [c]];
    assert xs[1..][1..] == [[c]];
    assert Join(xs[1..], '.') == [b, '.', c];
    assert Join(xs, '.') == [a, '.', b, '.', c];
    SplitJoin(xs, '.');
  }

  lemma VersionParts()
    ensures Split(Version, '.') == ["0", "7", "2"]
  {
    assert Version == ['0', '.', '7', '.', '2'];
    ThreeParts('0', '7', '2');
  }

  lemma OneDigit(c: char)
    requires IsDigit(c)
    ensures ToInt([c]) == DigitValue(c)
  {
    assert [c][..0] == [];
    assert ParseNat([c]) == DigitValue(c);
  }

  /** A three-part version of single digits a.b.c announces an update over 0.7.2 iff
      a > 0, or b > 7, or c > 2. */
  lemma {:induction false} AnnouncesDigits(a: char, b: char, c: char)
    requires IsDigit(a) && IsDigit(b) && IsDigit(c)
    ensures Announces([a, '.', b, '.', c]) <==> DigitValue(a) > 0 || DigitValue(b) > 7 || DigitValue(c) > 2
  {
    ThreeParts(a, b, c);
    VersionParts();
    OneDigit(a); OneDigit(b); OneDigit(c);
    OneDigit('0'); OneDigit('7'); OneDigit('2');
    var parts := [[a], [b], [c]];
    var current := ["0", "7", "2"];
    assert SomeComponentGreater(parts, current, 2) <==> DigitValue(c) > 2;
    assert SomeComponentGreater(parts, current, 1) <==> DigitValue(b) > 7 || DigitValue(c) > 2;
    assert SomeComponentGreater(parts, current, 0) <==> DigitValue(a) > 0 || DigitValue(b) > 7 || DigitValue(c) > 2;
  }

  /** The comparison against 0.7.2 is componentwise: 0.8.0 announces an update, and
      so does the older 0.6.9, because its last part is greater. */
  lemma {:induction false} AnnouncesGreaterPart()
    ensures Announces("0.8.0") && Announces("0.6.9")
  {
    AnnouncesDigits('0', '8', '0');
    AnnouncesDigits('0', '6', '9');
  }

  /** The running version itself and an older one with no greater part do not. */
  lemma {:induction false} AnnouncesNoGreaterPart()
    ensures !Announces("0.7.2") && !Announces("0.7.1")
  {
    AnnouncesDigits('0', '7', '2');
    AnnouncesDigits('0', '7', '1');
  }

  /** A version without exactly three parts never announces an update. */
  lemma {:induction false} AnnouncesNeedsThreeParts(newVersion: string)
    requires |Split(newVersion, '.')| != 3
    ensures !Announces(newVersion)
  {
  }

  /** For instance a two-part version. */
  lemma {:induction false} AnnouncesTwoParts()
    ensures !Announces("0.8")
  {
    var t := "0.8";
    SplitFirst(t, '.', 1);
    assert t[..1] == "0" && t[2..] == "8";
    assert '.' !in "8";
  }

  /** A reply laid out as "...version...>V<..." yields exactly V, provided V holds no
      '<' and nothing between "version" and the first '>' is a '<' or '>'. */
  lemma {:induction false} ExtractVersionLayout(reply: string, at: nat, middle: string, v: string, tail: string)
    requires IndexOfSub(reply, "version") == at
    requires at <= |reply| && reply[at..] == "version" + middle + ">" + v + "<" + tail
    requires '>' !in middle && '<' !in middle && '<' !in v
    ensures ExtractVersion(reply) == Some(v)
  {
    var lead := "version" + middle;
    assert '>' !in lead && '<' !in lead;
    assert reply[at..] == lead + ['>'] + v + ['<'] + tail;
    BetweenMarks(reply[at..], lead, v, tail);
  }

  /** The text between the first '>' and the first '<' when no '<' comes before it. */
  lemma {:induction false} BetweenMarks(rest: string, lead: string, v: string, tail: string)
    requires rest == lead + ['>'] + v + ['<'] + tail
    requires '>' !in lead && '<' !in lead && '<' !in v
    ensures Marked(rest) == v
  {
    var upTo := lead + ['>'] + v;
    assert rest == upTo + ['<'] + tail;
    assert rest == lead + ['>'] + (v + ['<'] + tail);
    IndexOfAfterPrefix(lead, '>', v + ['<'] + tail);
    assert '<' !in upTo;
    IndexOfAfterPrefix(upTo, '<', tail);
    var start := |lead| + 1;
    assert rest[start..start + |v|] == v;
  }

  /** ApplicationManager's state. The window, cursor and maximised-window calls are
      outside the model; the window's maximised state is an argument. */
  class ApplicationManager {
    var fullscreen: bool
    var maximized: bool
    var mouseX: int
    var mouseY: int
    var dragging: bool
    var dragInfo: string
    var notificationsEnabled: bool
    /** Every signal emitted so far, oldest first. */
    var emitted: seq<AppSignal>

    constructor ()
      ensures !fullscreen && !maximized && mouseX == 0 && mouseY == 0
      ensures !dragging && dragInfo == "" && notificationsEnabled && emitted == []
    {
      fullscreen, maximized := false, false;
      mouseX, mouseY := 0, 0;
      dragging, dragInfo := false, "";
      notificationsEnabled := true;
      emitted := [];
    }

    /** The notification is emitted iff notifications are enabled. */
    method TriggerNotification(message: string)
      modifies this`emitted
      ensures emitted == old(emitted) + (if notificationsEnabled then [Notification(message)] else [])
    {
      if !notificationsEnabled {
        return;
      }
      emitted := emitted + [Notification(message)];
    }

    /** Passes each text to TriggerNotification in order. */
    method TriggerNotifications(messages: seq<string>)
      modifies this`emitted
      ensures !notificationsEnabled ==> emitted == old(emitted)
      ensures notificationsEnabled ==>
        emitted == old(emitted) + seq(|messages|, i requires 0 <= i < |messages| => Notification(messages[i]))
    {
      var i := 0;
      while i < |messages|
        invariant 0 <= i <= |messages|
        invariant !notificationsEnabled ==> emitted == old(emitted)
        invariant notificationsEnabled ==>
          emitted == old(emitted) + seq(i, j requires 0 <= j < i => Notification(messages[j]))
      {
        TriggerNotification(messages[i]);
        i := i + 1;
      }
    }

    /** Only the flag changes. */
    method SetNotificationsEnabled(enabled: bool)
      modifies this`notificationsEnabled
      ensures notificationsEnabled == enabled
    {
      notificationsEnabled := enabled;
    }

    /** Setting the current value does nothing; a new value is stored and announced. */
    method SetMouseX(x: int)
      modifies this`mouseX, this`emitted
      ensures mouseX == x
      ensures emitted == old(emitted) + (if old(mouseX) == x then [] else [MouseXChanged(x)])
    {
      if mouseX == x {
        return;
      }
      mouseX := x;
      emitted := emitted + [MouseXChanged(x)];
    }

    method SetMouseY(y: int)
      modifies this`mouseY, this`emitted
      ensures mouseY == y
      ensures emitted == old(emitted) + (if old(mouseY) == y then [] else [MouseYChanged(y)])
    {
      if mouseY == y {
        return;
      }
      mouseY := y;
      emitted := emitted + [MouseYChanged(y)];
    }

    /** A drag already under way keeps its info; otherwise the drag starts with this
        info and is announced. */
    method DragStarted(info: string)
      modifies this`dragging, this`dragInfo, this`emitted
      ensures dragging
      ensures old(dragging) ==> dragInfo == old(dragInfo) && emitted == old(emitted)
      ensures !old(dragging) ==> dragInfo == info && emitted == old(emitted) + [DraggingChanged(true)]
    {
      if dragging {
        return;
      }
      dragging := true;
      dragInfo := info;
      emitted := emitted + [DraggingChanged(dragging)];
    }

    /** Ends a drag under way and announces it; the drag info is kept. */
    method DragFinished()
      modifies this`dragging, this`emitted
      ensures !dragging
      ensures emitted == old(emitted) + (if old(dragging) then [DraggingChanged(false)] else [])
    {
      if !dragging {
        return;
      }
      dragging := false;
      emitted := emitted + [DraggingChanged(dragging)];
    }

    /** Leaves fullscreen; nothing happens when not in fullscreen. */
    method ShowNormal()
      modifies this`fullscreen
      ensures !fullscreen
    {
      if fullscreen {
        fullscreen := false;
      }
    }

    /** Enters fullscreen, remembering whether the window was maximised; nothing happens
        when already in fullscreen. */
    method ShowFullscreen(windowMaximized: bool)
      modifies this`fullscreen, this`maximized
      ensures fullscreen
      ensures maximized == if old(fullscreen) then old(maximized) else windowMaximized
    {
      if !fullscreen {
        maximized := windowMaximized;
        fullscreen := true;
      }
    }

    /** The reply to the update check raises the update notification, at most once,
        iff it announces a newer version under the componentwise comparison. */
    method CheckForUpdatesReply(reply: string)
      modifies this`emitted
      ensures emitted == old(emitted) +
        (if ReplyAnnounces(reply) && notificationsEnabled then [Notification(UpdateMessage)] else [])
    {
      var found := ExtractVersion(reply);
      if found.None? {
        assert !ReplyAnnounces(reply);
        return;
      }
      var newParts := Split(found.value, '.');
      var currentParts := Split(Version, '.');
      if |newParts| != 3 {
        assert !ReplyAnnounces(reply);
        return;
      }
      VersionParts();
      assert ReplyAnnounces(reply) == SomeComponentGreater(newParts, currentParts, 0);
      var i := 0;
      while i < 3
        invariant 0 <= i <= 3
        invariant SomeComponentGreater(newParts, currentParts, 0) == SomeComponentGreater(newParts, currentParts, i)
        invariant emitted == old(emitted)
      {
        if ToInt(newParts[i]) > ToInt(currentParts[i]) {
          TriggerNotification(UpdateMessage);
          break;
        }
        i := i + 1;
      }
    }
  }
}
