/** The background service of the use-case demos (`PalmTouchService`): per frame it
    aggregates the blob classifications into "palm present", debounces with
    `consecPalmCounter`, and on each fire vibrates and dispatches on `palmTouchAction`:
    show a four-button pie menu, or pull down the notification bar. The system effects
    (vibrator, status bar, launching apps) are recorded, in order, in the `effects` log;
    the pie menu's buttons are the `visibleViews` list. */
module UseCaseService {
  import opened Wrappers
  import opened JavaInt
  import opened Classification
  import opened Debounce
  import opened Processes

  /** The launcher on which action 0 pulls down the notification bar instead of the pie menu. */
  const TREBUCHET: string := "com.cyanogenmod.trebuchet"
  /** The applications the first three pie-menu buttons open. */
  const MMS: string := "com.android.mms"
  const BROWSER: string := "com.android.browser"
  const MAPS: string := "com.google.android.apps.maps"
  /** `Service.START_STICKY`. */
  const START_STICKY: int := 1

  /** The image of a pie-menu button. */
  datatype PieIcon = PieMenu1 | PieMenu2 | PieMenu3 | PieMenuClose

  /** A pie-menu button (an `ImageView` added to the window manager); buttons are compared
      by identity, as `List.indexOf` does for views. */
  class PieButton {
    const icon: PieIcon

    constructor (icon: PieIcon)
      ensures this.icon == icon
    {
      this.icon := icon;
    }
  }

  /** The pie menu as `showPieMenu` lays it out: four distinct buttons showing menu 1, 2, 3
      and close, in the order they are added (the order `onClick` dispatches on). */
  predicate PieMenuLayout(views: seq<PieButton>) {
    && |views| == 4
    && (forall i, j :: 0 <= i < j < 4 ==> views[i] != views[j])
    && views[0].icon == PieMenu1 && views[1].icon == PieMenu2
    && views[2].icon == PieMenu3 && views[3].icon == PieMenuClose
  }

  /** The system effects the service causes. */
  datatype Effect = Vibrate | ExpandNotifications | LaunchApp(packageName: string)

  /** An extra of an `Intent`: an `int`, or a value of another type. */
  datatype Extra = IntExtra(value: int) | OtherExtra
  datatype Intent = Intent(extras: map<string, Extra>)

  /** `intent.getIntExtra(name, defaultValue)`: the `int` stored under `name`, or the default
      when there is none or it is not an `int`. */
  function GetIntExtra(intent: Intent, name: string, defaultValue: int): (v: int)
    ensures name !in intent.extras ==> v == defaultValue
    ensures name in intent.extras && intent.extras[name].OtherExtra? ==> v == defaultValue
    ensures name in intent.extras && intent.extras[name].IntExtra? ==> v == intent.extras[name].value
  {
    if name in intent.extras && intent.extras[name].IntExtra? then intent.extras[name].value else defaultValue
  }

  /** What a fire does after vibrating. */
  datatype Reaction = ShowPie | OpenBar | NoReaction

  /** The `switch` of `handlePalmDetection`. `visibleApp` is `None` when there is no process
      manager, otherwise what it reports. */
  function ReactionFor(action: int, visibleApp: Option<Option<string>>): (r: Reaction)
    ensures r == OpenBar <==> action == 2 || (action == 0 && visibleApp == Some(Some(TREBUCHET)))
    ensures r == ShowPie <==> action == 1 || (action == 0 && visibleApp.Some? && visibleApp.value != Some(TREBUCHET))
    ensures r == NoReaction <==> (action != 0 && action != 1 && action != 2) || (action == 0 && visibleApp == None)
  {
    if action == 0 then
      match visibleApp
      case None => NoReaction
      case Some(app) => if app == Some(TREBUCHET) then OpenBar else ShowPie
    else if action == 1 then ShowPie
    else if action == 2 then OpenBar
    else NoReaction
  }

  /** `list.indexOf(v)`: the first position holding `v`, or -1. */
  function IndexOf<T(==)>(s: seq<T>, v: T): (i: int)
    ensures -1 <= i < |s|
    ensures i >= 0 ==> s[i] == v && v !in s[..i]
    ensures i == -1 <==> v !in s
  {
    if |s| == 0 then -1
    else if s[0] == v then 0
    else
      var j := IndexOf(s[1..], v);
      assert j >= 0 ==> s[1..][..j] == s[1..j + 1];
      if j == -1 then -1 else j + 1
  }

  /** The app a click on the button at `index` opens. */
  function LaunchFor(index: int): seq<Effect> {
    if index == 0 then [LaunchApp(MMS)]
    else if index == 1 then [LaunchApp(BROWSER)]
    else if index == 2 then [LaunchApp(MAPS)]
    else []
  }

  class PalmTouchService {
    var consecPalmCounter: int
    var palmTouchAction: int
    var visibleViews: seq<PieButton>
    var processManager: ProcessManager?
    var effects: seq<Effect>
    /** The palm flags of the frames seen so far. */
    ghost var frames: seq<bool>

    /** The counter follows the palm history, and the pie menu is either closed or fully open. */
    ghost predicate Valid()
      reads this
    {
      && consecPalmCounter == CounterAfter(frames)
      && (|visibleViews| == 0 || |visibleViews| == 4)
    }

    /** Field initialisers and `onCreate`: action 0, counter 0, no buttons, and a process
        manager for the service's own package. */
    constructor (packageName: string)
      ensures Valid() && frames == [] && effects == []
      ensures consecPalmCounter == 0 && palmTouchAction == 0 && visibleViews == []
      ensures processManager != null && fresh(processManager)
      ensures processManager.packageName == packageName
      ensures processManager.knownPackages == KNOWN_PACKAGES && processManager.launchers == LAUNCHERS
    {
      consecPalmCounter := 0;
      visibleViews := [];
      effects := [];
      frames := [];
      palmTouchAction := 0;
      processManager := new ProcessManager(packageName);
    }

    /** `onStartCommand`: a non-null intent sets the action from its "action" extra (default 0). */
    method OnStartCommand(intent: Option<Intent>) returns (r: int)
      requires Valid()
      modifies this
      ensures Valid()
      ensures r == START_STICKY
      ensures intent.Some? ==> palmTouchAction == GetIntExtra(intent.value, "action", 0)
      ensures intent.None? ==> palmTouchAction == old(palmTouchAction)
      ensures consecPalmCounter == old(consecPalmCounter) && visibleViews == old(visibleViews)
      ensures effects == old(effects) && processManager == old(processManager) && frames == old(frames)
    {
      if intent.Some? {
        palmTouchAction := GetIntExtra(intent.value, "action", 0);
      }
      return START_STICKY;
    }

    /** `showPieMenu`: nothing while buttons are shown; otherwise add the four buttons. */
    method ShowPieMenu()
      requires Valid()
      modifies this
      ensures Valid()
      ensures |old(visibleViews)| > 0 ==> visibleViews == old(visibleViews)
      ensures |old(visibleViews)| == 0 ==>
                && PieMenuLayout(visibleViews)
                && (forall i :: 0 <= i < 4 ==> fresh(visibleViews[i]))
      ensures consecPalmCounter == old(consecPalmCounter) && palmTouchAction == old(palmTouchAction)
      ensures effects == old(effects) && processManager == old(processManager) && frames == old(frames)
    {
      if |visibleViews| > 0 {
        return;
      }
      var btn1 := new PieButton(PieMenu1);
      visibleViews := visibleViews + [btn1];
      var btn2 := new PieButton(PieMenu2);
      visibleViews := visibleViews + [btn2];
      var btn3 := new PieButton(PieMenu3);
      visibleViews := visibleViews + [btn3];
      var btnClose := new PieButton(PieMenuClose);
      visibleViews := visibleViews + [btnClose];
    }

    /** `onClick`: open the app of the clicked button (the first three), vibrate, and remove
        every button. */
    method OnClick(v: PieButton)
      requires Valid()
      modifies this
      ensures Valid()
      ensures visibleViews == []
      ensures effects == old(effects) + LaunchFor(IndexOf(old(visibleViews), v)) + [Vibrate]
      ensures consecPalmCounter == old(consecPalmCounter) && palmTouchAction == old(palmTouchAction)
      ensures processManager == old(processManager) && frames == old(frames)
    {
      var index := IndexOf(visibleViews, v);
      if index == 0 {
        effects := effects + [LaunchApp(MMS)];
      } else if index == 1 {
        effects := effects + [LaunchApp(BROWSER)];
      } else if index == 2 {
        effects := effects + [LaunchApp(MAPS)];
      }
      effects := effects + [Vibrate];
      visibleViews := [];
    }

    /** `handlePalmDetection`, with `psListing` the process listing the process manager would
        read at that moment: update the counter; when it reaches `CONSECUTIVE_PALMS`, vibrate
        and react as `palmTouchAction` says. */
    method HandlePalmDetection(palmAvailable: bool, psListing: seq<string>)
      requires Valid()
      modifies this
      ensures Valid() && frames == old(frames) + [palmAvailable]
      ensures consecPalmCounter == CounterStep(old(consecPalmCounter), palmAvailable)
      ensures palmTouchAction == old(palmTouchAction) && processManager == old(processManager)
      ensures consecPalmCounter != CONSECUTIVE_PALMS ==>
                effects == old(effects) && visibleViews == old(visibleViews)
      ensures consecPalmCounter == CONSECUTIVE_PALMS ==>
                var reaction := ReactionFor(palmTouchAction,
                  if processManager == null then None else Some(processManager.VisibleApplication(psListing)));
                && effects == old(effects) + [Vibrate] + (if reaction == OpenBar then [ExpandNotifications] else [])
                && (reaction == ShowPie && |old(visibleViews)| == 0 ==>
                      PieMenuLayout(visibleViews) && forall i :: 0 <= i < 4 ==> fresh(visibleViews[i]))
                && (reaction != ShowPie || |old(visibleViews)| > 0 ==> visibleViews == old(visibleViews))
    {
      if palmAvailable {
        consecPalmCounter := CounterStep(consecPalmCounter, true);
      } else {
        consecPalmCounter := 0;
      }
      frames := frames + [palmAvailable];
      assert frames[..|frames| - 1] == old(frames);

      if consecPalmCounter == CONSECUTIVE_PALMS {
        var idx := palmTouchAction;
        effects := effects + [Vibrate];
        if idx == 0 {
          if processManager != null {
            var app := processManager.GetVisibleApplication(psListing);
            if app.Some? && app.value == TREBUCHET {
              effects := effects + [ExpandNotifications];
            } else {
              ShowPieMenu();
            }
          }
        } else if idx == 1 {
          ShowPieMenu();
        } else if idx == 2 {
          effects := effects + [ExpandNotifications];
        }
      }
    }

    /** `onLocalCapImg` from the classifications onward: aggregate, then debounce; the frame
        is "palm" when some blob is classified as class 1. */
    method OnClassifiedFrame(results: seq<ClassificationResult>, psListing: seq<string>)
      requires Valid()
      modifies this
      ensures Valid()
      ensures frames == old(frames) + [exists i :: 0 <= i < |results| && results[i].index == 1]
      ensures consecPalmCounter ==
                CounterStep(old(consecPalmCounter), exists i :: 0 <= i < |results| && results[i].index == 1)
      ensures palmTouchAction == old(palmTouchAction) && processManager == old(processManager)
      ensures consecPalmCounter != CONSECUTIVE_PALMS ==>
                effects == old(effects) && visibleViews == old(visibleViews)
      ensures consecPalmCounter == CONSECUTIVE_PALMS ==>
                var reaction := ReactionFor(palmTouchAction,
                  if processManager == null then None else Some(processManager.VisibleApplication(psListing)));
                && effects == old(effects) + [Vibrate] + (if reaction == OpenBar then [ExpandNotifications] else [])
                && (reaction == ShowPie && |old(visibleViews)| == 0 ==>
                      PieMenuLayout(visibleViews) && forall i :: 0 <= i < 4 ==> fresh(visibleViews[i]))
                && (reaction != ShowPie || |old(visibleViews)| > 0 ==> visibleViews == old(visibleViews))
    {
      var palmFound := PalmFound(results);
      HandlePalmDetection(palmFound, psListing);
    }
  }
}
