/** The user's preferences and the system prompt `src/PDFAnalyzerFront.js` builds
    from them. */
module Prompt {
  import opened Text

  /** The preferences record, keyed by the name of its form field. */
  type Preferences = map<string, string>

  const DomainPriority := "domainPriority"
  const MethodPreference := "methodPreference"
  const PerformanceThreshold := "performanceThreshold"

  /** The initial preferences: all three fields empty. */
  const DefaultPreferences: Preferences :=
    map[DomainPriority := "", MethodPreference := "", PerformanceThreshold := ""]

  const NotSpecified := "not specified"

  /** `preferences[key] || 'not specified'`: an absent key reads as `undefined`
      and an empty value is falsy, so both fall back to the default. */
  function Shown(prefs: Preferences, key: string): (r: string)
    ensures r != ""
    ensures key in prefs && prefs[key] != "" ==> r == prefs[key]
    ensures key !in prefs || prefs[key] == "" ==> r == NotSpecified
  {
    if key in prefs && prefs[key] != "" then prefs[key] else NotSpecified
  }

  /** The fixed instructions that open the prompt, up to the preferences heading. */
  const PromptIntro :=
    "你是研究论文分析助理。你的任务是：\n"
    + "1. 确定核心研究问题和未解决的挑战。\n"
    + "2. 解构方法论、实验设计和算法细节。\n"
    + "3. 评估结果、绩效指标和比较结果。\n"
    + "4. 根据分析提供结构化的结论。\n"
    + "\n"
    + "请使用Markdown格式返回结果，特别是:\n"
    + "- 数学公式使用KaTeX语法，行内公式用$...$，块级公式用$$...$$\n"
    + "- 表格使用Markdown表格语法\n"
    + "- 代码块使用```语法\n"
    + "\n"
    + "用户偏好:\n"

  const DomainLabel := "- 主要领域: "
  const MethodLabel := "\n- 方法偏好: "
  const ThresholdLabel := "\n- 实验效果阈值: "

  /** The system prompt: the fixed instructions, then one line per preference. */
  function SystemPrompt(prefs: Preferences): (r: string)
    ensures StartsWith(r, PromptIntro + DomainLabel)
    ensures |r| >= |ThresholdLabel + Shown(prefs, PerformanceThreshold)|
    ensures r[|r| - |ThresholdLabel + Shown(prefs, PerformanceThreshold)|..]
         == ThresholdLabel + Shown(prefs, PerformanceThreshold)
  {
    PromptIntro + DomainLabel + Shown(prefs, DomainPriority)
    + MethodLabel + Shown(prefs, MethodPreference)
    + ThresholdLabel + Shown(prefs, PerformanceThreshold)
  }

  /** Each preference appears verbatim after its label when it is non-empty, and
      as `not specified` when it is empty or missing. */
  lemma PromptShowsEachField(prefs: Preferences)
    ensures Contains(SystemPrompt(prefs), DomainLabel + Shown(prefs, DomainPriority) + MethodLabel)
    ensures Contains(SystemPrompt(prefs), MethodLabel + Shown(prefs, MethodPreference) + ThresholdLabel)
    ensures Contains(SystemPrompt(prefs), ThresholdLabel + Shown(prefs, PerformanceThreshold))
  {
    LabelledSlots(PromptIntro, DomainLabel, Shown(prefs, DomainPriority), MethodLabel,
      Shown(prefs, MethodPreference), ThresholdLabel, Shown(prefs, PerformanceThreshold));
  }

  /** Where each labelled value sits in a three-line template. */
  lemma LabelledSlots(intro: string, l1: string, v1: string, l2: string, v2: string, l3: string, v3: string)
    ensures Contains(intro + l1 + v1 + l2 + v2 + l3 + v3, l1 + v1 + l2)
    ensures Contains(intro + l1 + v1 + l2 + v2 + l3 + v3, l2 + v2 + l3)
    ensures Contains(intro + l1 + v1 + l2 + v2 + l3 + v3, l3 + v3)
  {
    var r := intro + l1 + v1 + l2 + v2 + l3 + v3;
    OccursAtEnd(intro, l1, v1, l2);
    OccursExtend(intro + l1 + v1 + l2, l1 + v1 + l2, |intro|, v2);
    OccursExtend(intro + l1 + v1 + l2 + v2, l1 + v1 + l2, |intro|, l3);
    OccursExtend(intro + l1 + v1 + l2 + v2 + l3, l1 + v1 + l2, |intro|, v3);
    assert OccursAt(r, l1 + v1 + l2, |intro|);
    OccursAtEnd(intro + l1 + v1, l2, v2, l3);
    OccursExtend(intro + l1 + v1 + l2 + v2 + l3, l2 + v2 + l3, |intro + l1 + v1|, v3);
    assert OccursAt(r, l2 + v2 + l3, |intro + l1 + v1|);
    assert r == (intro + l1 + v1 + l2 + v2) + l3 + v3;
    assert OccursAt(r, l3 + v3, |intro + l1 + v1 + l2 + v2|);
  }

  /** Only the three preference fields reach the prompt: preferences that show
      the same three values give the same prompt. */
  lemma PromptDependsOnlyOnFields(p: Preferences, q: Preferences)
    requires Shown(p, DomainPriority) == Shown(q, DomainPriority)
    requires Shown(p, MethodPreference) == Shown(q, MethodPreference)
    requires Shown(p, PerformanceThreshold) == Shown(q, PerformanceThreshold)
    ensures SystemPrompt(p) == SystemPrompt(q)
  {
  }
}
