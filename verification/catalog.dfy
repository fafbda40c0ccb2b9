/** The static project catalog of lib/suggest/database.ts. */
module Catalog {

  /** A project idea: its title, a one-line description, and descriptive tags. */
  datatype Project = Project(title: string, description: string, tags: seq<string>)

  const ResumeRanker := Project(
    "AI-Powered Resume Ranker",
    "Build a tool that ranks resumes using NLP and transformer models.",
    ["Python", "NLP", "LLM", "ATS", "Resume"])

  const CitationVisualizer := Project(
    "Scholar Citation Visualizer",
    "Visualize citation trends over time using Google Scholar data.",
    ["Data Visualization", "Google Scholar", "D3.js", "React"])

  const ThreatDetection := Project(
    "Real-Time Threat Detection System",
    "Use deep learning to detect anomalies in network traffic.",
    ["Cybersecurity", "Python", "Deep Learning", "IDS", "Anomaly Detection"])

  const PaperRecommender := Project(
    "Academic Paper Recommender",
    "Recommend research papers using user interests and citation graphs.",
    ["NLP", "Recommendation", "Graph", "Machine Learning"])

  const LearningPathGenerator := Project(
    "Interactive Learning Path Generator",
    "Suggest personalized study paths using resume and publications.",
    ["React", "Recommendation", "LLM", "NLP", "AI"])

  /** `PROJECT_DATABASE`, in its fixed order. */
  const ProjectDatabase: seq<Project> :=
    [ResumeRanker, CitationVisualizer, ThreatDetection, PaperRecommender, LearningPathGenerator]

  /** No two catalog entries share a title. */
  predicate DistinctTitles(catalog: seq<Project>)
  {
    forall i, j :: 0 <= i < j < |catalog| ==> catalog[i].title != catalog[j].title
  }

  /** The catalog has five entries, each with at least one tag, and the titles
      tell them apart. */
  lemma {:induction false} DatabaseShape()
    ensures |ProjectDatabase| == 5
    ensures forall i :: 0 <= i < |ProjectDatabase| ==> |ProjectDatabase[i].tags| > 0
    ensures DistinctTitles(ProjectDatabase)
  {
  }

  /** Positions of the entries carrying a given tag. */
  lemma {:induction false} DatabaseTagPositions()
    ensures forall i :: 0 <= i < |ProjectDatabase| ==> ("Python" in ProjectDatabase[i].tags <==> i == 0 || i == 2)
    ensures forall i :: 0 <= i < |ProjectDatabase| ==> ("NLP" in ProjectDatabase[i].tags <==> i == 0 || i == 3 || i == 4)
  {
  }
}
