TestResult.DisplayName,TestResult.Outcome,TestResult.Duration,TestResult.ResourceCount,RandomSeed
Codec.ItemsToJson (well-formedness),Passed,00:00:00.8473116,1809636,1
