/**
 The overlay manager's part in the encoder command: which overlay images are
 extra encoder inputs, the filter graph that places them on the main video,
 and the deletion of an overlay image. The filter graph is built as a chain
 of overlay stages and rendered to the text the encoder receives.
 */
module Overlay {
  import opened Optional
  import Config
  import Text

  /** The three overlay switches of the configuration. */
  datatype Switches = Switches(overlayEnabled: bool, logoEnabled: bool, bannerEnabled: bool)

  /** The overlay files on disk and the manager's own record of which exist. */
  datatype Overlays = Overlays(disk: set<string>, logoExists: bool, bannerExists: bool)

  predicate LogoReady(sw: Switches, disk: set<string>) {
    sw.logoEnabled && Config.LOGO_PATH in disk
  }

  predicate BannerReady(sw: Switches, disk: set<string>) {
    sw.bannerEnabled && Config.BANNER_PATH in disk
  }

  /** One overlay stage: video `from` with input `input` placed at (`x`, `y`), labelled `to`. */
  datatype Stage = Stage(from: string, input: nat, x: string, y: string, to: string)

  /** The label of encoder input `n` (a single digit here). */
  function InputLabel(n: nat): (l: string)
    requires n <= 9
    ensures |l| == 5 && l[0] == '[' && l[2..] == ":v]"
  {
    "[" + [('0' as int + n) as char] + ":v]"
  }

  function RenderStage(st: Stage): string
    requires st.input <= 9
  {
    st.from + InputLabel(st.input) + "overlay=" + st.x + ":" + st.y + st.to
  }

  /** Stages rendered in order and joined with ';'. */
  function Render(stages: seq<Stage>): (f: string)
    requires forall i :: 0 <= i < |stages| ==> stages[i].input <= 9
    ensures |stages| == 1 ==> f == RenderStage(stages[0])
  {
    if stages == [] then ""
    else if |stages| == 1 then RenderStage(stages[0])
    else RenderStage(stages[0]) + ";" + Render(stages[1..])
  }

  const LogoPosition: (string, string) := (Config.LOGO_POSITION_X, Config.LOGO_POSITION_Y)
  const BannerPosition: (string, string) := (Config.BANNER_POSITION_X, "H-h-" + Config.BANNER_POSITION_Y_OFFSET)

  /** The positions of the ready overlays, logo first. */
  function ReadyPositions(sw: Switches, disk: set<string>): (ps: seq<(string, string)>)
    ensures |ps| <= 2
  {
    (if LogoReady(sw, disk) then [LogoPosition] else [])
    + (if BannerReady(sw, disk) then [BannerPosition] else [])
  }

  /**
   Chains one stage per position: stage `i` overlays input `first + i`, the
   first stage reads the main video `[0:v]`, later ones the intermediate
   `[tmp]`, and only the last writes `[out]`.
   */
  function Chain(ps: seq<(string, string)>, first: nat, from: string): (stages: seq<Stage>)
    ensures |stages| == |ps|
    ensures forall i :: 0 <= i < |ps| ==> stages[i].input == first + i
    ensures forall i :: 0 <= i < |ps| ==> (stages[i].x, stages[i].y) == ps[i]
    ensures |ps| > 0 ==> stages[0].from == from
    ensures forall i :: 0 < i < |ps| ==> stages[i].from == "[tmp]"
    ensures forall i :: 0 <= i < |ps| ==> stages[i].to == (if i == |ps| - 1 then "[out]" else "[tmp]")
  {
    if ps == [] then []
    else
      var rest := Chain(ps[1..], first + 1, "[tmp]");
      [Stage(from, first, ps[0].0, ps[0].1, if |ps| == 1 then "[out]" else "[tmp]")] + rest
  }

  function OverlayStages(sw: Switches, disk: set<string>): (stages: seq<Stage>)
    ensures |stages| <= 2
    ensures forall i :: 0 <= i < |stages| ==> stages[i].input == i + 1
  {
    Chain(ReadyPositions(sw, disk), 1, "[0:v]")
  }

  /**
   The overlay filter graph: none when overlays are switched off or neither
   the logo nor the banner is both enabled and on disk; otherwise the chain
   of overlay stages, ending in the label `[out]`.
   */
  function OverlayFilter(sw: Switches, disk: set<string>): (f: Option<string>)
    ensures f.None? <==> !sw.overlayEnabled || (!LogoReady(sw, disk) && !BannerReady(sw, disk))
    ensures f.Some? ==> Text.EndsWith(f.value, "[out]")
  {
    var stages := OverlayStages(sw, disk);
    if !sw.overlayEnabled || stages == [] then None
    else
      var f := Render(stages);
      RenderEndsWithOut(stages);
      Some(f)
  }

  lemma {:induction false} RenderEndsWithOut(stages: seq<Stage>)
    requires stages != []
    requires forall i :: 0 <= i < |stages| ==> stages[i].input <= 9
    requires stages[|stages| - 1].to == "[out]"
    ensures Text.EndsWith(Render(stages), "[out]")
  {
    if |stages| > 1 {
      RenderEndsWithOut(stages[1..]);
      var rest := Render(stages[1..]);
      assert Render(stages) == (RenderStage(stages[0]) + ";") + rest;
    } else {
      var st := stages[0];
      assert RenderStage(st) == (st.from + InputLabel(st.input) + "overlay=" + st.x + ":" + st.y) + "[out]";
    }
  }

  /**
   The extra encoder inputs, logo before banner, each present exactly when it
   is enabled and on disk. The overlay master switch plays no part.
   */
  function OverlayInputs(sw: Switches, disk: set<string>): (inputs: seq<string>)
    ensures Config.LOGO_PATH in inputs <==> LogoReady(sw, disk)
    ensures Config.BANNER_PATH in inputs <==> BannerReady(sw, disk)
    ensures forall p :: p in inputs ==> p == Config.LOGO_PATH || p == Config.BANNER_PATH
    ensures |inputs| > 0 && LogoReady(sw, disk) ==> inputs[0] == Config.LOGO_PATH
    ensures |inputs| == (if LogoReady(sw, disk) then 1 else 0) + (if BannerReady(sw, disk) then 1 else 0)
  {
    (if LogoReady(sw, disk) then [Config.LOGO_PATH] else [])
    + (if BannerReady(sw, disk) then [Config.BANNER_PATH] else [])
  }

  /**
   Filter and inputs agree: with overlays on, the filter has one stage per
   extra input, stage `i` reads encoder input `i + 1`, and it uses the logo
   position exactly when the `i`-th extra input is the logo. Input `i + 1` is
   that extra input only when the main source is a single encoder input.
   */
  lemma LabelsMatchInputs(sw: Switches, disk: set<string>)
    ensures |OverlayStages(sw, disk)| == |OverlayInputs(sw, disk)|
    ensures forall i :: 0 <= i < |OverlayStages(sw, disk)| ==>
      OverlayStages(sw, disk)[i].input == i + 1
      && ((OverlayStages(sw, disk)[i].x, OverlayStages(sw, disk)[i].y) == LogoPosition
          <==> OverlayInputs(sw, disk)[i] == Config.LOGO_PATH)
    ensures sw.overlayEnabled ==> (OverlayFilter(sw, disk).Some? <==> |OverlayInputs(sw, disk)| > 0)
  {
    var ps := ReadyPositions(sw, disk);
    assert LogoPosition != BannerPosition by {
      assert LogoPosition.0 != BannerPosition.0 by {
        assert Config.LOGO_POSITION_X[0] != Config.BANNER_POSITION_X[0];
      }
    }
  }

  /** The inputs do not look at the master switch: with it off they can be non-empty while the filter is none. */
  lemma InputsNotGatedBySwitch(disk: set<string>)
    requires Config.LOGO_PATH in disk
    ensures OverlayFilter(Switches(false, true, true), disk) == None
    ensures OverlayInputs(Switches(false, true, true), disk) != []
  {
  }

  /** The configured positions, as text. */
  lemma PositionTexts()
    ensures LogoPosition == ("10", "10") && BannerPosition == ("0", "H-h-10")
  {
    assert "H-h-" + Config.BANNER_POSITION_Y_OFFSET == "H-h-10";
  }

  lemma LabelDigit(n: nat)
    requires 1 <= n <= 2
    ensures InputLabel(n) == if n == 1 then "[1:v]" else "[2:v]"
  {
  }

  /** The stage that places the logo on the main video, and the one that places the banner last. */
  const LogoStage := Stage("[0:v]", 1, "10", "10", "[tmp]")
  const BannerStage := Stage("[tmp]", 2, "0", "H-h-10", "[out]")

  lemma LogoStageText()
    ensures RenderStage(LogoStage) == "[0:v][1:v]overlay=10:10[tmp]"
  {
    LabelDigit(1);
  }

  lemma BannerStageText()
    ensures RenderStage(BannerStage) == "[tmp][2:v]overlay=0:H-h-10[out]"
  {
    LabelDigit(2);
  }

  lemma BothStagesText()
    ensures Render([LogoStage, BannerStage]) == "[0:v][1:v]overlay=10:10[tmp];[tmp][2:v]overlay=0:H-h-10[out]"
  {
    var stages := [LogoStage, BannerStage];
    assert stages[1..] == [BannerStage];
    assert Render(stages) == RenderStage(LogoStage) + ";" + Render([BannerStage]);
    LogoStageText();
    BannerStageText();
    JoinText("[0:v][1:v]overlay=10:10[tmp]", "[tmp][2:v]overlay=0:H-h-10[out]");
  }

  lemma JoinText(a: string, b: string)
    requires a == "[0:v][1:v]overlay=10:10[tmp]" && b == "[tmp][2:v]overlay=0:H-h-10[out]"
    ensures a + ";" + b == "[0:v][1:v]overlay=10:10[tmp];[tmp][2:v]overlay=0:H-h-10[out]"
  {
  }

  lemma SingleStageText(x: string, y: string)
    ensures Render([Stage("[0:v]", 1, x, y, "[out]")]) == "[0:v][1:v]overlay=" + x + ":" + y + "[out]"
  {
    LabelDigit(1);
  }

  /** The filter text with both overlays ready. */
  lemma BothOverlaysFilter(sw: Switches, disk: set<string>)
    requires sw.overlayEnabled && LogoReady(sw, disk) && BannerReady(sw, disk)
    ensures OverlayFilter(sw, disk) == Some("[0:v][1:v]overlay=10:10[tmp];[tmp][2:v]overlay=0:H-h-10[out]")
    ensures OverlayInputs(sw, disk) == [Config.LOGO_PATH, Config.BANNER_PATH]
  {
    PositionTexts();
    assert ReadyPositions(sw, disk) == [("10", "10"), ("0", "H-h-10")];
    var stages := OverlayStages(sw, disk);
    assert stages[0] == LogoStage && stages[1] == BannerStage;
    assert stages == [LogoStage, BannerStage];
    BothStagesText();
  }

  /** With only the logo ready, the logo is input `[1:v]` at the logo position. */
  lemma LogoOnlyFilter(sw: Switches, disk: set<string>)
    requires sw.overlayEnabled && LogoReady(sw, disk) && !BannerReady(sw, disk)
    ensures OverlayFilter(sw, disk) == Some("[0:v][1:v]overlay=10:10[out]")
    ensures OverlayInputs(sw, disk) == [Config.LOGO_PATH]
  {
    PositionTexts();
    assert ReadyPositions(sw, disk) == [("10", "10")];
    var st := Stage("[0:v]", 1, "10", "10", "[out]");
    assert OverlayStages(sw, disk)[0] == st;
    assert OverlayStages(sw, disk) == [st];
    SingleStageText("10", "10");
    assert "[0:v][1:v]overlay=" + "10" + ":" + "10" + "[out]" == "[0:v][1:v]overlay=10:10[out]";
  }

  /** With only the banner ready, the banner is input `[1:v]` at the banner position. */
  lemma BannerOnlyFilter(sw: Switches, disk: set<string>)
    requires sw.overlayEnabled && !LogoReady(sw, disk) && BannerReady(sw, disk)
    ensures OverlayFilter(sw, disk) == Some("[0:v][1:v]overlay=0:H-h-10[out]")
    ensures OverlayInputs(sw, disk) == [Config.BANNER_PATH]
  {
    PositionTexts();
    assert ReadyPositions(sw, disk) == [("0", "H-h-10")];
    var st := Stage("[0:v]", 1, "0", "H-h-10", "[out]");
    assert OverlayStages(sw, disk)[0] == st;
    assert OverlayStages(sw, disk) == [st];
    SingleStageText("0", "H-h-10");
    assert "[0:v][1:v]overlay=" + "0" + ":" + "H-h-10" + "[out]" == "[0:v][1:v]overlay=0:H-h-10[out]";
  }

  /**
   Removes the file at `path` if it is on disk. A removal that fails (the
   operating system refuses) is reported and leaves everything as it was; a
   file that is already gone needs no removal and succeeds.
   */
  function RemoveFile(disk: set<string>, path: string, removeFails: bool): (r: (set<string>, bool))
    ensures r.1 <==> path !in disk || !removeFails
    ensures r.1 ==> r.0 == disk - {path}
    ensures !r.1 ==> r.0 == disk
  {
    if path in disk && removeFails then (disk, false) else (disk - {path}, true)
  }

  /** Deletes the logo: on success it is off disk and recorded as absent; the banner is untouched. */
  function DeleteLogo(o: Overlays, removeFails: bool): (r: (Overlays, bool))
    ensures r.1 <==> Config.LOGO_PATH !in o.disk || !removeFails
    ensures r.1 ==> Config.LOGO_PATH !in r.0.disk && !r.0.logoExists
    ensures r.1 ==> r.0.disk == o.disk - {Config.LOGO_PATH} && r.0.bannerExists == o.bannerExists
    ensures !r.1 ==> r.0 == o
  {
    var (disk, ok) := RemoveFile(o.disk, Config.LOGO_PATH, removeFails);
    if ok then (o.(disk := disk, logoExists := false), true) else (o, false)
  }

  /** Deletes the banner: on success it is off disk and recorded as absent; the logo is untouched. */
  function DeleteBanner(o: Overlays, removeFails: bool): (r: (Overlays, bool))
    ensures r.1 <==> Config.BANNER_PATH !in o.disk || !removeFails
    ensures r.1 ==> Config.BANNER_PATH !in r.0.disk && !r.0.bannerExists
    ensures r.1 ==> r.0.disk == o.disk - {Config.BANNER_PATH} && r.0.logoExists == o.logoExists
    ensures !r.1 ==> r.0 == o
  {
    var (disk, ok) := RemoveFile(o.disk, Config.BANNER_PATH, removeFails);
    if ok then (o.(disk := disk, bannerExists := false), true) else (o, false)
  }

  /** Deleting twice is deleting once: the second call succeeds and changes nothing. */
  lemma DeleteIsIdempotent(o: Overlays, f1: bool, f2: bool)
    ensures DeleteLogo(o, f1).1 ==> DeleteLogo(DeleteLogo(o, f1).0, f2) == (DeleteLogo(o, f1).0, true)
    ensures DeleteBanner(o, f1).1 ==> DeleteBanner(DeleteBanner(o, f1).0, f2) == (DeleteBanner(o, f1).0, true)
  {
    assert o.disk - {Config.LOGO_PATH} - {Config.LOGO_PATH} == o.disk - {Config.LOGO_PATH};
    assert o.disk - {Config.BANNER_PATH} - {Config.BANNER_PATH} == o.disk - {Config.BANNER_PATH};
  }

  /** After a deleted logo, the filter and inputs are those of a banner-only configuration. */
  lemma DeletedLogoLeavesFilter(o: Overlays, f: bool, sw: Switches)
    requires DeleteLogo(o, f).1
    ensures !LogoReady(sw, DeleteLogo(o, f).0.disk)
    ensures Config.LOGO_PATH !in OverlayInputs(sw, DeleteLogo(o, f).0.disk)
  {
  }
}
